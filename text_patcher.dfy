/** The line- and substring-oriented edits that the PhotoGallery script runner applies to
    generated source files (src-tester/PhotoGalleryScriptRunner/Program.cs), and the scanner
    that reads a package version out of a project file. Each edit is a method that walks the
    list of lines as the source does; a function beside it states the same result on the whole
    list, and the lemmas state what callers rely on: the no-op cases, where the new line lands,
    and idempotence. */
module TextPatcher {
  import opened Strings
  import opened Lines

  /** `lines.Insert(pos, line)` on a `List<string>`. */
  function InsertLine(lines: seq<string>, pos: nat, line: string): (r: seq<string>)
    requires pos <= |lines|
  {
    lines[..pos] + [line] + lines[pos..]
  }

  // ---------------------------------------------------------------------------
  // InsertAfterLineContaining
  // ---------------------------------------------------------------------------

  /** The text InsertAfterLineContaining returns: unchanged when duplicates are refused and
      `insert` already occurs, otherwise the lines re-joined with `insert` after the first line
      containing `marker`, if there is one. */
  function InsertedAfter(text: string, marker: string, insert: string, allowMultiple: bool): (r: string)
  {
    var lines := Split(text);
    if !allowMultiple && Contains(text, insert) then text
    else match FirstLineContaining(lines, marker)
      case None => Join(lines)
      case Some(i) => Join(InsertLine(lines, i + 1, insert))
  }

  method InsertAfterLineContaining(text: string, marker: string, insert: string, allowMultiple: bool)
    returns (r: string)
    ensures r == InsertedAfter(text, marker, insert, allowMultiple)
  {
    var lines := Split(text);
    if !allowMultiple && Contains(text, insert) {
      return text;
    }
    for i := 0 to |lines|
      invariant lines == Split(text)
      invariant forall k :: 0 <= k < i ==> !Contains(lines[k], marker)
    {
      if Contains(lines[i], marker) {
        lines := InsertLine(lines, i + 1, insert);
        return Join(lines);
      }
    }
    return Join(lines);
  }

  /** Nothing changes when the insertion is already present (and duplicates are refused) or when
      no line contains the marker: splitting and re-joining gives the text back. */
  lemma InsertAfterNoOp(text: string, marker: string, insert: string, allowMultiple: bool)
    requires (!allowMultiple && Contains(text, insert)) || FirstLineContaining(Split(text), marker).None?
    ensures InsertedAfter(text, marker, insert, allowMultiple) == text
  {
    JoinSplit(text);
  }

  /** Otherwise the lines of `insert` come right below the first marker line, and the result
      contains it. */
  lemma InsertAfterPlacement(text: string, marker: string, insert: string, allowMultiple: bool, i: nat)
    requires !(!allowMultiple && Contains(text, insert))
    requires FirstLineContaining(Split(text), marker) == Some(i)
    ensures Split(InsertedAfter(text, marker, insert, allowMultiple))
      == Split(text)[..i + 1] + Split(insert) + Split(text)[i + 1..]
    ensures Contains(InsertedAfter(text, marker, insert, allowMultiple), insert)
  {
    var lines := Split(text);
    var placed := lines[..i + 1] + Split(insert) + lines[i + 1..];
    assert InsertLine(lines, i + 1, insert) == lines[..i + 1] + [insert] + lines[i + 1..];
    JoinSplitInside(lines[..i + 1], insert, lines[i + 1..]);
    assert NoLineBreaks(placed);
    SplitJoin(placed);
    JoinContainsBlock(lines[..i + 1], insert, lines[i + 1..]);
  }

  /** With duplicates refused, a second application changes nothing. */
  lemma InsertAfterIdempotent(text: string, marker: string, insert: string)
    ensures var once := InsertedAfter(text, marker, insert, false);
      InsertedAfter(once, marker, insert, false) == once
  {
    var once := InsertedAfter(text, marker, insert, false);
    if !Contains(text, insert) {
      match FirstLineContaining(Split(text), marker)
      case None =>
        JoinSplit(text);
      case Some(i) =>
        var lines := InsertLine(Split(text), i + 1, insert);
        assert lines[i + 1] == insert;
        JoinContainsLine(lines, i + 1);
    }
  }

  // ---------------------------------------------------------------------------
  // InsertBeforeLineContaining
  // ---------------------------------------------------------------------------

  /** The text InsertBeforeLineContaining returns: unchanged when `insert` already occurs
      (always checked), otherwise the lines re-joined with `insert` right above the first line
      containing `marker`, if there is one. */
  function InsertedBefore(text: string, marker: string, insert: string): (r: string)
  {
    var lines := Split(text);
    if Contains(text, insert) then text
    else match FirstLineContaining(lines, marker)
      case None => Join(lines)
      case Some(i) => Join(InsertLine(lines, i, insert))
  }

  method InsertBeforeLineContaining(text: string, marker: string, insert: string) returns (r: string)
    ensures r == InsertedBefore(text, marker, insert)
  {
    var lines := Split(text);
    if Contains(text, insert) {
      return text;
    }
    for i := 0 to |lines|
      invariant lines == Split(text)
      invariant forall k :: 0 <= k < i ==> !Contains(lines[k], marker)
    {
      if Contains(lines[i], marker) {
        lines := InsertLine(lines, i, insert);
        return Join(lines);
      }
    }
    return Join(lines);
  }

  lemma InsertBeforeNoOp(text: string, marker: string, insert: string)
    requires Contains(text, insert) || FirstLineContaining(Split(text), marker).None?
    ensures InsertedBefore(text, marker, insert) == text
  {
    JoinSplit(text);
  }

  /** The lines of `insert` take the place of the first marker line, which moves down behind
      them. */
  lemma InsertBeforePlacement(text: string, marker: string, insert: string, i: nat)
    requires !Contains(text, insert)
    requires FirstLineContaining(Split(text), marker) == Some(i)
    ensures Split(InsertedBefore(text, marker, insert)) == Split(text)[..i] + Split(insert) + Split(text)[i..]
    ensures Split(InsertedBefore(text, marker, insert))[i + |Split(insert)|] == Split(text)[i]
    ensures Contains(InsertedBefore(text, marker, insert), insert)
  {
    var lines := Split(text);
    var placed := lines[..i] + Split(insert) + lines[i..];
    assert InsertLine(lines, i, insert) == lines[..i] + [insert] + lines[i..];
    JoinSplitInside(lines[..i], insert, lines[i..]);
    assert NoLineBreaks(placed);
    SplitJoin(placed);
    assert placed[i + |Split(insert)|] == lines[i];
    JoinContainsBlock(lines[..i], insert, lines[i..]);
  }

  lemma InsertBeforeIdempotent(text: string, marker: string, insert: string)
    ensures var once := InsertedBefore(text, marker, insert);
      InsertedBefore(once, marker, insert) == once
  {
    if !Contains(text, insert) {
      match FirstLineContaining(Split(text), marker)
      case None =>
        JoinSplit(text);
      case Some(i) =>
        var lines := InsertLine(Split(text), i, insert);
        assert lines[i] == insert;
        JoinContainsLine(lines, i);
    }
  }

  // ---------------------------------------------------------------------------
  // EnsureUsing
  // ---------------------------------------------------------------------------

  /** Puts `usingLine` in front of the content, followed by a line break, unless it already
      occurs somewhere in it; either way the result contains it. */
  function EnsureUsing(content: string, usingLine: string): (r: string)
    ensures Contains(r, usingLine)
  {
    if !Contains(content, usingLine) then
      ContainsBeforeSeparator(usingLine, "\n", content);
      usingLine + "\n" + content
    else content
  }

  lemma EnsureUsingIdempotent(content: string, usingLine: string)
    ensures EnsureUsing(EnsureUsing(content, usingLine), usingLine) == EnsureUsing(content, usingLine)
  {
  }

  /** When it adds the line, its lines come first and every old line follows them; a using
      line without a line break becomes the first line. */
  lemma EnsureUsingAddsFirstLine(content: string, usingLine: string)
    requires !Contains(content, usingLine)
    ensures Split(EnsureUsing(content, usingLine)) == Split(usingLine) + Split(content)
    ensures '\n' !in usingLine ==> Split(EnsureUsing(content, usingLine)) == [usingLine] + Split(content)
  {
    SplitAtLineBreak(usingLine, content);
    if '\n' !in usingLine {
      SplitSingleLine(usingLine);
    }
  }

  // ---------------------------------------------------------------------------
  // ReplaceMapGet
  // ---------------------------------------------------------------------------

  const MapGetMarker := "app.MapGet("

  /** The index just past the first line at or after `i` that contains a semicolon, or the
      number of lines when there is none. */
  function StatementEnd(lines: seq<string>, i: nat): (j: nat)
    requires i < |lines|
    ensures i < j <= |lines|
    ensures forall k :: i <= k < j - 1 ==> !Contains(lines[k], ";")
    ensures Contains(lines[j - 1], ";") || (j == |lines| && forall k :: i <= k < |lines| ==> !Contains(lines[k], ";"))
  {
    match FirstLineContaining(lines[i..], ";")
    case None =>
      assert forall k :: i <= k < |lines| ==> lines[k] == lines[i..][k - i];
      |lines|
    case Some(d) =>
      assert forall k :: i <= k <= i + d ==> lines[k] == lines[i..][k - i];
      i + d + 1
  }

  /** The text ReplaceMapGet returns: the lines from the first `app.MapGet(` line through the
      next line holding a `;` (or through the end) replaced by the lines of `newMapGet`; when no
      line holds the marker, `newMapGet` appended on a line of its own with a final line break. */
  function MapGetReplaced(content: string, newMapGet: string): (r: string)
  {
    var lines := Split(content);
    match FirstLineContaining(lines, MapGetMarker)
    case None => content + "\n" + newMapGet + "\n"
    case Some(i) => Join(lines[..i] + Split(newMapGet) + lines[StatementEnd(lines, i)..])
  }

  /** The scan of ReplaceMapGet from the marker line `i`: forward to the first line holding a
      semicolon, then one past it when there is one. */
  method ScanStatementEnd(lines: seq<string>, i: nat) returns (j: nat)
    requires i < |lines|
    ensures j == StatementEnd(lines, i)
  {
    j := i;
    while j < |lines| && !Contains(lines[j], ";")
      invariant i <= j <= |lines|
      invariant forall k :: i <= k < j ==> !Contains(lines[k], ";")
    {
      j := j + 1;
    }
    if j < |lines| {
      j := j + 1;
    }
  }

  method ReplaceMapGet(content: string, newMapGet: string) returns (r: string)
    ensures r == MapGetReplaced(content, newMapGet)
  {
    var lines := Split(content);
    for i := 0 to |lines|
      invariant forall k :: 0 <= k < i ==> !Contains(lines[k], MapGetMarker)
    {
      if Contains(lines[i], MapGetMarker) {
        var j := ScanStatementEnd(lines, i);
        var before := lines[..i];
        var after := lines[j..];
        before := before + Split(newMapGet);
        before := before + after;
        return Join(before);
      }
    }
    return content + "\n" + newMapGet + "\n";
  }

  /** Splitting at a line break splits both sides independently. */
  lemma SplitAtLineBreak(a: string, b: string)
    ensures Split(a + "\n" + b) == Split(a) + Split(b)
  {
    JoinSplit(a);
    JoinSplit(b);
    JoinConcat(Split(a), Split(b));
    SplitJoin(Split(a) + Split(b));
  }

  /** The result always holds the new block, and its lines are the old lines around it. */
  lemma MapGetReplacedLines(content: string, newMapGet: string)
    ensures Contains(MapGetReplaced(content, newMapGet), newMapGet)
    ensures var lines := Split(content);
      Split(MapGetReplaced(content, newMapGet)) ==
        match FirstLineContaining(lines, MapGetMarker)
        case None => lines + Split(newMapGet) + [""]
        case Some(i) => lines[..i] + Split(newMapGet) + lines[StatementEnd(lines, i)..]
  {
    var lines := Split(content);
    match FirstLineContaining(lines, MapGetMarker)
    case None =>
      AppendedBlockLines(content, newMapGet);
    case Some(i) =>
      var j := StatementEnd(lines, i);
      JoinContainsBlock(lines[..i], newMapGet, lines[j..]);
      SplitJoin(lines[..i] + Split(newMapGet) + lines[j..]);
  }

  /** The fallback of ReplaceMapGet: the block on lines of its own after the content, then an
      empty last line. */
  lemma AppendedBlockLines(content: string, newMapGet: string)
    ensures Contains(content + "\n" + newMapGet + "\n", newMapGet)
    ensures Split(content + "\n" + newMapGet + "\n") == Split(content) + Split(newMapGet) + [""]
  {
    ContainsMiddle(content + "\n", newMapGet, "\n");
    SplitAtLineBreak(content, newMapGet);
    SplitAtLineBreak(content + "\n" + newMapGet, "");
    assert content + "\n" + newMapGet + "\n" + "" == content + "\n" + newMapGet + "\n";
    assert Split("") == [""];
  }

  /** A replacement block whose first line holds the marker and whose only semicolon line is
      its last line. */
  predicate SingleStatementBlock(newMapGet: string)
  {
    var block := Split(newMapGet);
    Contains(block[0], MapGetMarker) &&
    Contains(block[|block| - 1], ";") &&
    forall k :: 0 <= k < |block| - 1 ==> !Contains(block[k], ";")
  }

  /** In lines laid out as `before`, a single-statement block, `after`, the statement that
      starts at the block ends with the block. */
  lemma StatementEndOfBlock(before: seq<string>, newMapGet: string, after: seq<string>)
    requires SingleStatementBlock(newMapGet)
    ensures var lines := before + Split(newMapGet) + after;
      StatementEnd(lines, |before|) == |before| + |Split(newMapGet)|
  {
    var block := Split(newMapGet);
    var lines := before + block + after;
    var last := |block| - 1;
    assert lines[|before|..] == block[..last] + ([block[last]] + after);
    FirstLineAfterPrefix(block[..last], [block[last]] + after, ";");
    assert ([block[last]] + after)[0] == block[last];
  }

  lemma MarkerAtBlock(before: seq<string>, newMapGet: string, after: seq<string>)
    requires SingleStatementBlock(newMapGet)
    requires forall k :: 0 <= k < |before| ==> !Contains(before[k], MapGetMarker)
    ensures FirstLineContaining(before + Split(newMapGet) + after, MapGetMarker) == Some(|before|)
  {
    var block := Split(newMapGet);
    FirstLineAfterPrefix(before, block + after, MapGetMarker);
    assert (block + after)[0] == block[0];
    assert before + (block + after) == before + block + after;
  }

  /** In lines laid out as `before` (no marker line), a single-statement block, `after`,
      the replacement puts the same block back in the same place. */
  lemma MapGetReplacedAtBlock(text: string, newMapGet: string, before: seq<string>, after: seq<string>)
    requires SingleStatementBlock(newMapGet)
    requires Split(text) == before + Split(newMapGet) + after
    requires forall k :: 0 <= k < |before| ==> !Contains(before[k], MapGetMarker)
    ensures MapGetReplaced(text, newMapGet) == text
  {
    var lines := Split(text);
    var block := Split(newMapGet);
    MarkerAtBlock(before, newMapGet, after);
    StatementEndOfBlock(before, newMapGet, after);
    assert lines[..|before|] == before;
    assert lines[|before| + |block|..] == after;
    JoinSplit(text);
  }

  /** Replacing the block twice with a single-statement block is the same as replacing it once. */
  lemma MapGetReplacedIdempotent(content: string, newMapGet: string)
    requires SingleStatementBlock(newMapGet)
    ensures MapGetReplaced(MapGetReplaced(content, newMapGet), newMapGet) == MapGetReplaced(content, newMapGet)
  {
    var once := MapGetReplaced(content, newMapGet);
    var lines := Split(content);
    MapGetReplacedLines(content, newMapGet);
    match FirstLineContaining(lines, MapGetMarker) {
      case None =>
        MapGetReplacedAtBlock(once, newMapGet, lines, [""]);
      case Some(i) =>
        MapGetReplacedAtBlock(once, newMapGet, lines[..i], lines[StatementEnd(lines, i)..]);
    }
  }

  /** Without the single-statement shape the replacement is not idempotent: when the block's
      first semicolon line is not its last, a second application leaves the tail behind once
      more (the block of Step 26 has this shape). */
  lemma MapGetReplacedLeavesTail(line: string, head: string, tail: string)
    requires '\n' !in line && '\n' !in head && '\n' !in tail
    requires Contains(line, MapGetMarker) && Contains(line, ";")
    requires Contains(head, MapGetMarker) && Contains(head, ";")
    ensures MapGetReplaced(line, head + "\n" + tail) == head + "\n" + tail
    ensures MapGetReplaced(head + "\n" + tail, head + "\n" + tail) == head + "\n" + tail + "\n" + tail
    ensures MapGetReplaced(head + "\n" + tail, head + "\n" + tail) != head + "\n" + tail
  {
    var block := head + "\n" + tail;
    SplitSingleLine(line);
    assert FirstLineContaining([line], MapGetMarker) == Some(0);
    assert [line][0..] == [line];
    assert StatementEnd([line], 0) == 1;
    assert [line][..0] + Split(block) + [line][1..] == Split(block);
    JoinSplit(block);
    SplitFirstLine(head, tail);
    SplitSingleLine(tail);
    var lines := [head, tail];
    assert Split(block) == lines;
    assert FirstLineContaining(lines, MapGetMarker) == Some(0);
    assert lines[0..] == lines;
    assert StatementEnd(lines, 0) == 1;
    assert lines[..0] + lines + lines[1..] == [head, tail, tail];
    assert Join([head, tail, tail]) == head + "\n" + (tail + "\n" + tail);
  }

  // ---------------------------------------------------------------------------
  // A guarded call site: Step 18 of the script
  // ---------------------------------------------------------------------------

  const RazorResultMarker := "RazorComponentResult<PhotoList>"
  const RazorMapGetHead := "app.MapGet(\"/\", () => \n    {\n        return new "
  const RazorMapGetTail := "(new {Photos = Array.Empty<string>() } );\n    });"
  const RazorMapGet := RazorMapGetHead + RazorResultMarker + RazorMapGetTail

  /** The transform of Web Program.cs in Step 18: when the Razor component result is missing,
      add two using lines and replace the MapGet block. */
  function UseRazorComponentResult(content: string): (r: string)
  {
    if !Contains(content, RazorResultMarker) then
      var withUsings := EnsureUsing(EnsureUsing(content, "using PhotoGallery.Web.Components;"),
                                    "using Microsoft.AspNetCore.Http.HttpResults;");
      MapGetReplaced(withUsings, RazorMapGet)
    else content
  }

  /** The guard makes the Step idempotent although MapGetReplaced alone need not be. */
  lemma UseRazorComponentResultIdempotent(content: string)
    ensures UseRazorComponentResult(UseRazorComponentResult(content)) == UseRazorComponentResult(content)
  {
    if !Contains(content, RazorResultMarker) {
      var withUsings := EnsureUsing(EnsureUsing(content, "using PhotoGallery.Web.Components;"),
                                    "using Microsoft.AspNetCore.Http.HttpResults;");
      MapGetReplacedLines(withUsings, RazorMapGet);
      ContainsMiddle(RazorMapGetHead, RazorResultMarker, RazorMapGetTail);
      ContainsTransitive(MapGetReplaced(withUsings, RazorMapGet), RazorMapGet, RazorResultMarker);
    }
  }

  // ---------------------------------------------------------------------------
  // ExtractPackageVersion (the scan of the project file's text)
  // ---------------------------------------------------------------------------

  const VersionAttr := "Version=\""

  function PackageReferenceTag(packageId: string): (r: string)
  {
    "<PackageReference Include=\"" + packageId + "\""
  }

  /** The text from `start` up to the next quote, or None when no quote follows. */
  function QuotedValue(xml: string, start: nat): (r: Option<string>)
    ensures r.Some? ==> '"' !in r.value
    ensures r.Some? ==> start + |r.value| < |xml| && xml[start + |r.value|] == '"' &&
                        xml[start..start + |r.value|] == r.value
    ensures r.None? ==> forall k :: start <= k < |xml| ==> xml[k] != '"'
  {
    match IndexOfChar(xml, '"', start)
    case None => None
    case Some(end) =>
      assert forall k :: 0 <= k < end - start ==> xml[start..end][k] == xml[start + k];
      Some(xml[start..end])
  }

  /** The quoted value of the first `attr` at or after `from`, found without regard to ASCII
      case; None when the attribute or its closing quote is missing. */
  function AttributeValue(xml: string, attr: string, from: nat): (r: Option<string>)
    ensures r.Some? ==> '"' !in r.value
    ensures r.Some? ==> exists v: nat :: FirstMatchIgnoreCase(xml, attr, from, v) && QuotedValue(xml, v + |attr|) == r
  {
    match IndexOfIgnoreCase(xml, attr, from)
    case None => None
    case Some(v) =>
      assert FirstMatchIgnoreCase(xml, attr, from, v);
      QuotedValue(xml, v + |attr|)
  }

  /** The same search, kept to attributes that end by `end`. */
  function AttributeValueBefore(xml: string, attr: string, from: nat, end: nat): (r: Option<string>)
    requires end <= |xml|
    ensures r.Some? ==> '"' !in r.value
    ensures r.Some? ==>
              exists v :: from <= v && v + |attr| <= end && MatchesIgnoreCaseAt(xml, attr, v) &&
                          QuotedValue(xml, v + |attr|) == r
  {
    match IndexOfIgnoreCase(xml[..end], attr, from)
    case None => None
    case Some(v) =>
      MatchesIgnoreCaseAtPrefix(xml, attr, end, v);
      QuotedValue(xml, v + |attr|)
  }

  /** The value of the first `Version="…"` attribute at or after the package's reference tag,
      both found without regard to ASCII case; None (the source's null) when the tag, the
      attribute or the closing quote is missing. */
  function ExtractPackageVersion(xml: string, packageId: string): (r: Option<string>)
    ensures r.Some? ==> '"' !in r.value
    ensures r.Some? ==>
              exists idx: nat, v: nat :: FirstMatchIgnoreCase(xml, PackageReferenceTag(packageId), 0, idx) &&
                               FirstMatchIgnoreCase(xml, VersionAttr, idx, v) &&
                               QuotedValue(xml, v + |VersionAttr|) == r
    ensures IndexOfIgnoreCase(xml, PackageReferenceTag(packageId), 0).None? ==> r.None?
  {
    match IndexOfIgnoreCase(xml, PackageReferenceTag(packageId), 0)
    case None => None
    case Some(idx) => AttributeValue(xml, VersionAttr, idx)
  }

  /** Where the element opened at `idx` ends: its first `>`, or the end of the text. */
  function ElementEnd(xml: string, idx: nat): (e: nat)
    requires idx <= |xml|
    ensures idx <= e <= |xml|
    ensures forall k :: idx <= k < e ==> xml[k] != '>'
    ensures e < |xml| ==> xml[e] == '>'
  {
    match IndexOfChar(xml, '>', idx)
    case None => |xml|
    case Some(e) => e
  }

  /** The quoted value of the first `attr` between `idx` and the first `>` after it: an
      attribute of the element opened at `idx`. */
  function AttributeValueInElement(xml: string, attr: string, idx: nat): (r: Option<string>)
    requires idx <= |xml|
    ensures r.Some? ==> '"' !in r.value
    ensures r.Some? ==>
              exists v: nat :: idx <= v && MatchesIgnoreCaseAt(xml, attr, v) &&
                               NoElementEndIn(xml, idx, v + |attr|) && QuotedValue(xml, v + |attr|) == r
  {
    AttributeValueBefore(xml, attr, idx, ElementEnd(xml, idx))
  }

  /** No `>` closes an element between `from` and `to`. */
  predicate NoElementEndIn(xml: string, from: nat, to: nat)
  {
    to <= |xml| && forall k :: from <= k < to ==> xml[k] != '>'
  }

  /** The version scan with the attribute search kept inside the package's own element: the
      `Version="` it reads lies between the reference tag and the element's first `>`. */
  function ExtractOwnPackageVersion(xml: string, packageId: string): (r: Option<string>)
    ensures r.Some? ==> '"' !in r.value
    ensures r.Some? ==>
              exists idx: nat, v: nat :: FirstMatchIgnoreCase(xml, PackageReferenceTag(packageId), 0, idx) &&
                                         idx <= v && MatchesIgnoreCaseAt(xml, VersionAttr, v) &&
                                         NoElementEndIn(xml, idx, v + |VersionAttr|) &&
                                         QuotedValue(xml, v + |VersionAttr|) == r
    ensures IndexOfIgnoreCase(xml, PackageReferenceTag(packageId), 0).None? ==> r.None?
  {
    match IndexOfIgnoreCase(xml, PackageReferenceTag(packageId), 0)
    case None => None
    case Some(idx) =>
      assert FirstMatchIgnoreCase(xml, PackageReferenceTag(packageId), 0, idx);
      AttributeValueInElement(xml, VersionAttr, idx)
  }

  /** The search reads the value behind the first match. */
  lemma {:induction false} AttributeValueAt(xml: string, attr: string, from: nat, at: nat, value: string)
    requires FirstMatchIgnoreCase(xml, attr, from, at)
    requires QuotedValue(xml, at + |attr|) == Some(value)
    ensures AttributeValue(xml, attr, from) == Some(value)
  {
    IndexOfIgnoreCaseFindsFirst(xml, attr, from, at);
  }

  /** So does the bounded search, when the first match ends by the bound. */
  lemma {:induction false} AttributeValueBeforeAt(xml: string, attr: string, from: nat, end: nat, at: nat,
                                                  value: string)
    requires end <= |xml| && at + |attr| <= end && FirstMatchIgnoreCase(xml, attr, from, at)
    requires QuotedValue(xml, at + |attr|) == Some(value)
    ensures AttributeValueBefore(xml, attr, from, end) == Some(value)
  {
    MatchesIgnoreCaseAtPrefix(xml, attr, end, at);
    forall k | from <= k < at
      ensures !MatchesIgnoreCaseAt(xml[..end], attr, k)
    {
      MatchesIgnoreCaseAtPrefix(xml, attr, end, k);
    }
    IndexOfIgnoreCaseFinds(xml[..end], attr, from, at);
  }

  /** What the bounded search finds, the unbounded one finds too. */
  lemma {:induction false} AttributeValueBeforeRefines(xml: string, attr: string, from: nat, end: nat)
    requires end <= |xml|
    ensures AttributeValueBefore(xml, attr, from, end).Some? ==>
              AttributeValueBefore(xml, attr, from, end) == AttributeValue(xml, attr, from)
  {
    var found := IndexOfIgnoreCase(xml[..end], attr, from);
    if found.Some? {
      var v := found.value;
      var value := QuotedValue(xml, v + |attr|);
      assert AttributeValueBefore(xml, attr, from, end) == value;
      MatchesIgnoreCaseAtPrefix(xml, attr, end, v);
      forall k | from <= k < v
        ensures !MatchesIgnoreCaseAt(xml, attr, k)
      {
        assert !MatchesIgnoreCaseAt(xml[..end], attr, k);
        MatchesIgnoreCaseAtPrefix(xml, attr, end, k);
      }
      if value.Some? {
        AttributeValueAt(xml, attr, from, v, value.value);
      }
    }
  }

  /** The bounded search finds nothing when no match ends by the bound. */
  lemma {:induction false} AttributeValueBeforeMissing(xml: string, attr: string, from: nat, end: nat)
    requires end <= |xml|
    requires forall k :: from <= k && k + |attr| <= end ==> !MatchesIgnoreCaseAt(xml, attr, k)
    ensures AttributeValueBefore(xml, attr, from, end) == None
  {
    forall k | from <= k
      ensures !MatchesIgnoreCaseAt(xml[..end], attr, k)
    {
      MatchesIgnoreCaseAtPrefix(xml, attr, end, k);
    }
  }

  /** A value closed by a quote is read up to that quote. */
  lemma QuotedValueOf(xml: string, start: nat, version: string)
    requires '"' !in version && start + |version| < |xml|
    requires xml[start..start + |version|] == version && xml[start + |version|] == '"'
    ensures QuotedValue(xml, start) == Some(version)
  {
    assert forall k :: start <= k < start + |version| ==> xml[k] == version[k - start];
    IndexOfCharFinds(xml, '"', start, start + |version|);
  }

  /** Characters NuGet allows in a package id. */
  predicate IsPackageIdChar(c: char)
  {
    ('a' <= c <= 'z') || ('A' <= c <= 'Z') || ('0' <= c <= '9') || c == '.' || c == '-' || c == '_'
  }

  const TagPrefix := "<PackageReference Include=\""

  lemma FoldCaseOfPunctuation(c: char)
    ensures FoldCase(c) == '"' ==> c == '"'
    ensures FoldCase(c) == '=' ==> c == '='
  {
  }


  /** In a reference tag of a valid package id, quotes stand only after `Include=` and at the end,
      position 18 holds the `I` of `Include`, no `=` stands just before the final quote, and no
      `>` closes the element. */
  lemma PackageReferenceTagShape(packageId: string)
    requires forall k :: 0 <= k < |packageId| ==> IsPackageIdChar(packageId[k])
    ensures var tag := PackageReferenceTag(packageId);
      |tag| == 28 + |packageId| && tag[18] == 'I' && tag[|tag| - 2] != '=' &&
      (forall j :: 0 <= j < |tag| && j != 26 && j != |tag| - 1 ==> tag[j] != '"') &&
      forall j :: 0 <= j < |tag| ==> tag[j] != '>'
  {
    var tag := PackageReferenceTag(packageId);
    assert tag == TagPrefix + packageId + "\"";
    forall j | 0 <= j < |tag|
      ensures j != 26 && j != |tag| - 1 ==> tag[j] != '"'
      ensures tag[j] != '>'
    {
      if j < 27 {
        assert tag[j] == TagPrefix[j];
      } else if j < |tag| - 1 {
        assert tag[j] == packageId[j - 27];
      }
    }
    if packageId != [] {
      assert tag[|tag| - 2] == packageId[|packageId| - 1];
    }
  }

  /** A piece without quotes puts none into the text where it stands. */
  lemma {:induction false} QuoteFreeSpan(xml: string, at: nat, piece: string)
    requires at + |piece| <= |xml| && xml[at..at + |piece|] == piece && '"' !in piece
    ensures forall j :: at <= j < at + |piece| ==> xml[j] != '"'
  {
    assert forall j :: at <= j < at + |piece| ==> xml[j] == piece[j - at];
  }


  /** A reference tag followed by a piece without quotes holds no `Version="` whose quote falls
      inside them: the tag's own quotes follow `Include` and the package id. */
  lemma {:induction false} NoVersionAttrAcross(xml: string, packageId: string, at: nat, piece: string)
    requires forall k :: 0 <= k < |packageId| ==> IsPackageIdChar(packageId[k])
    requires at + |PackageReferenceTag(packageId)| + |piece| <= |xml|
    requires xml[at..at + |PackageReferenceTag(packageId)|] == PackageReferenceTag(packageId)
    requires xml[at + |PackageReferenceTag(packageId)|..at + |PackageReferenceTag(packageId)| + |piece|] == piece
    requires '"' !in piece
    ensures forall k :: 0 <= k && at <= k + 8 < at + |PackageReferenceTag(packageId)| + |piece| ==>
                        !MatchesIgnoreCaseAt(xml, VersionAttr, k)
  {
    var tag := PackageReferenceTag(packageId);
    var n := |tag|;
    var e := at + n + |piece|;
    PackageReferenceTagShape(packageId);
    QuoteFreeSpan(xml, at + n, piece);
    assert forall j :: at <= j < at + n ==> xml[j] == tag[j - at];
    forall k | 0 <= k && at <= k + 8 < e
      ensures !MatchesIgnoreCaseAt(xml, VersionAttr, k)
    {
      if k == at + 18 {
        assert xml[k] == 'I';
        assert FoldCase(xml[k]) != FoldCase(VersionAttr[0]);
      } else if k + 8 == at + n - 1 {
        assert xml[k + 7] == tag[n - 2];
        FoldCaseOfPunctuation(xml[k + 7]);
        assert FoldCase(xml[k + 7]) != FoldCase(VersionAttr[7]);
      } else {
        assert xml[k + 8] != '"';
        FoldCaseOfPunctuation(xml[k + 8]);
        assert FoldCase(xml[k + 8]) != FoldCase(VersionAttr[8]);
      }
    }
  }

  /** In a reference tag followed by text without quotes and `Version="`, the tag matches at
      the start and the attribute right after the text and nowhere before. */
  lemma {:induction false} ReferenceAttributeLayout(packageId: string, gap: string, more: string)
    requires forall k :: 0 <= k < |packageId| ==> IsPackageIdChar(packageId[k])
    requires '"' !in gap
    ensures var tag := PackageReferenceTag(packageId);
      var xml := tag + gap + VersionAttr + more;
      var at := |tag| + |gap|;
      MatchesIgnoreCaseAt(xml, tag, 0) && MatchesIgnoreCaseAt(xml, VersionAttr, at) &&
      forall k :: 0 <= k < at ==> !MatchesIgnoreCaseAt(xml, VersionAttr, k)
  {
    var tag := PackageReferenceTag(packageId);
    var n := |tag|;
    var piece := gap + "Version=";
    var xml := tag + piece + ("\"" + more);
    assert xml == (tag + gap) + VersionAttr + more;
    assert xml[..n] == tag;
    MatchesIgnoreCaseAtSlice(xml, tag, 0);
    assert xml[n..n + |piece|] == piece;
    NoVersionAttrAcross(xml, packageId, 0, piece);
    MatchesIgnoreCaseAtPiece(tag + gap, VersionAttr, more);
  }

  /** Behind the attribute, the value runs up to its quote. */
  lemma {:induction false} ReferenceValueLayout(head: string, version: string, rest: string)
    requires '"' !in version
    ensures QuotedValue(head + version + "\"" + rest, |head|) == Some(version)
  {
    var xml := head + version + "\"" + rest;
    assert xml[|head|..|head| + |version|] == version;
    assert xml[|head| + |version|] == '"';
    QuotedValueOf(xml, |head|, version);
  }

  /** In a reference tag followed by text without quotes and `Version="v"`, the tag matches at
      the start, the attribute right after the text and nowhere before, and the value runs up to
      its quote. */
  lemma {:induction false} ReferenceLayout(packageId: string, gap: string, version: string, rest: string)
    requires forall k :: 0 <= k < |packageId| ==> IsPackageIdChar(packageId[k])
    requires '"' !in gap && '"' !in version
    ensures var tag := PackageReferenceTag(packageId);
      var xml := tag + gap + VersionAttr + version + "\"" + rest;
      var at := |tag| + |gap|;
      MatchesIgnoreCaseAt(xml, tag, 0) && MatchesIgnoreCaseAt(xml, VersionAttr, at) &&
      (forall k :: 0 <= k < at ==> !MatchesIgnoreCaseAt(xml, VersionAttr, k)) &&
      QuotedValue(xml, at + |VersionAttr|) == Some(version)
  {
    var head := PackageReferenceTag(packageId) + gap + VersionAttr;
    var more := version + "\"" + rest;
    assert head + version + "\"" + rest == PackageReferenceTag(packageId) + gap + VersionAttr + more;
    ReferenceAttributeLayout(packageId, gap, more);
    ReferenceValueLayout(head, version, rest);
  }

  /** Wherever the reference tag first occurs, the scan reads the value behind the first
      `Version="` at or after it. */
  lemma {:induction false} ExtractPackageVersionAt(xml: string, packageId: string, idx: nat, v: nat, value: string)
    requires FirstMatchIgnoreCase(xml, PackageReferenceTag(packageId), 0, idx)
    requires FirstMatchIgnoreCase(xml, VersionAttr, idx, v)
    requires QuotedValue(xml, v + |VersionAttr|) == Some(value)
    ensures ExtractPackageVersion(xml, packageId) == Some(value)
  {
    IndexOfIgnoreCaseFindsFirst(xml, PackageReferenceTag(packageId), 0, idx);
    AttributeValueAt(xml, VersionAttr, idx, v, value);
  }

  /** No `Version="` at or after the tag: no version. */
  lemma {:induction false} ExtractPackageVersionWithoutAttribute(xml: string, packageId: string, idx: nat)
    requires FirstMatchIgnoreCase(xml, PackageReferenceTag(packageId), 0, idx)
    requires forall k :: idx <= k ==> !MatchesIgnoreCaseAt(xml, VersionAttr, k)
    ensures ExtractPackageVersion(xml, packageId) == None
  {
    IndexOfIgnoreCaseFindsFirst(xml, PackageReferenceTag(packageId), 0, idx);
  }

  /** No quote closing the value of the first `Version="` after the tag: no version. */
  lemma {:induction false} ExtractPackageVersionUnclosed(xml: string, packageId: string, idx: nat, v: nat)
    requires FirstMatchIgnoreCase(xml, PackageReferenceTag(packageId), 0, idx)
    requires FirstMatchIgnoreCase(xml, VersionAttr, idx, v)
    requires forall k :: v + |VersionAttr| <= k < |xml| ==> xml[k] != '"'
    ensures ExtractPackageVersion(xml, packageId) == None
  {
    IndexOfIgnoreCaseFindsFirst(xml, PackageReferenceTag(packageId), 0, idx);
    IndexOfIgnoreCaseFindsFirst(xml, VersionAttr, idx, v);
  }

  /** A reference tag followed, after text without quotes, by `Version="v"` yields `v`. */
  lemma {:induction false} ExtractPackageVersionAfterGap(packageId: string, gap: string, version: string, rest: string)
    requires forall k :: 0 <= k < |packageId| ==> IsPackageIdChar(packageId[k])
    requires '"' !in gap && '"' !in version
    ensures ExtractPackageVersion(PackageReferenceTag(packageId) + gap + VersionAttr + version + "\"" + rest,
                                  packageId) == Some(version)
  {
    var xml := PackageReferenceTag(packageId) + gap + VersionAttr + version + "\"" + rest;
    ReferenceLayout(packageId, gap, version, rest);
    ExtractPackageVersionAt(xml, packageId, 0, |PackageReferenceTag(packageId)| + |gap|, version);
  }

  /** A reference written as `<PackageReference Include="id" Version="v"` yields `v`. */
  lemma ExtractPackageVersionOfReference(packageId: string, version: string, rest: string)
    requires forall k :: 0 <= k < |packageId| ==> IsPackageIdChar(packageId[k])
    requires '"' !in version
    ensures ExtractPackageVersion(PackageReferenceTag(packageId) + " " + VersionAttr + version + "\"" + rest,
                                  packageId) == Some(version)
  {
    ExtractPackageVersionAfterGap(packageId, " ", version, rest);
  }

  /** Behind a prefix, a value is read as it was on its own. */
  lemma {:induction false} QuotedValueShift(prefix: string, s: string, start: nat)
    ensures QuotedValue(prefix + s, |prefix| + start) == QuotedValue(s, start)
  {
    var xml := prefix + s;
    match QuotedValue(s, start)
    case Some(value) =>
      assert xml[|prefix| + start..|prefix| + start + |value|] == s[start..start + |value|];
      assert xml[|prefix| + start + |value|] == s[start + |value|];
      QuotedValueOf(xml, |prefix| + start, value);
    case None =>
      assert forall k :: |prefix| + start <= k < |xml| ==> xml[k] == s[k - |prefix|];
  }

  /** A project file in which a header without the reference tag comes before
      `<PackageReference Include="id"`, text without quotes and `Version="v"` yields `v`. */
  lemma {:induction false} ExtractPackageVersionAfterHeader(header: string, packageId: string, gap: string,
                                                            version: string, rest: string)
    requires forall k :: 0 <= k < |packageId| ==> IsPackageIdChar(packageId[k])
    requires '"' !in gap && '"' !in version
    requires forall k :: 0 <= k < |header| ==>
      !MatchesIgnoreCaseAt(header + (PackageReferenceTag(packageId) + gap + VersionAttr + version + "\"" + rest),
                           PackageReferenceTag(packageId), k)
    ensures ExtractPackageVersion(header + (PackageReferenceTag(packageId) + gap + VersionAttr + version + "\"" + rest),
                                  packageId) == Some(version)
  {
    var tag := PackageReferenceTag(packageId);
    var body := tag + gap + VersionAttr + version + "\"" + rest;
    var at := |tag| + |gap|;
    ReferenceLayout(packageId, gap, version, rest);
    assert FirstMatchIgnoreCase(body, tag, 0, 0);
    assert FirstMatchIgnoreCase(body, VersionAttr, 0, at);
    ExtractPackageVersionBehind(header, body, packageId, at, version);
  }

  /** Behind a header without the reference tag, a project file yields the version it yields
      on its own when it starts with the tag. */
  lemma {:induction false} ExtractPackageVersionBehind(header: string, body: string, packageId: string, at: nat,
                                                       version: string)
    requires FirstMatchIgnoreCase(body, PackageReferenceTag(packageId), 0, 0)
    requires FirstMatchIgnoreCase(body, VersionAttr, 0, at)
    requires QuotedValue(body, at + |VersionAttr|) == Some(version)
    requires forall k :: 0 <= k < |header| ==> !MatchesIgnoreCaseAt(header + body, PackageReferenceTag(packageId), k)
    ensures ExtractPackageVersion(header + body, packageId) == Some(version)
  {
    ShiftedFirstMatch(header, body, PackageReferenceTag(packageId), 0);
    assert FirstMatchIgnoreCase(header + body, PackageReferenceTag(packageId), 0, |header|);
    ShiftedFirstMatchFrom(header, body, VersionAttr, 0, at);
    QuotedValueShift(header, body, at + |VersionAttr|);
    ExtractPackageVersionAt(header + body, packageId, |header|, |header| + at, version);
  }

  /** A first match after `from` in `s` stays the first after the shifted `from` behind a prefix. */
  lemma {:induction false} ShiftedFirstMatchFrom(prefix: string, s: string, sub: string, from: nat, m: nat)
    requires FirstMatchIgnoreCase(s, sub, from, m)
    ensures FirstMatchIgnoreCase(prefix + s, sub, |prefix| + from, |prefix| + m)
  {
    forall k | |prefix| + from <= k < |prefix| + m
      ensures !MatchesIgnoreCaseAt(prefix + s, sub, k)
    {
      MatchesIgnoreCaseAtShift(prefix, s, sub, k - |prefix|);
    }
    MatchesIgnoreCaseAtShift(prefix, s, sub, m);
  }

  /** The first match in `s` is the first in `prefix + s` when none starts in the prefix. */
  lemma {:induction false} ShiftedFirstMatch(prefix: string, s: string, sub: string, m: nat)
    requires MatchesIgnoreCaseAt(s, sub, m) && forall k :: 0 <= k < m ==> !MatchesIgnoreCaseAt(s, sub, k)
    requires forall k :: 0 <= k < |prefix| ==> !MatchesIgnoreCaseAt(prefix + s, sub, k)
    ensures MatchesIgnoreCaseAt(prefix + s, sub, |prefix| + m)
    ensures forall k :: 0 <= k < |prefix| + m ==> !MatchesIgnoreCaseAt(prefix + s, sub, k)
  {
    forall k | |prefix| <= k < |prefix| + m
      ensures !MatchesIgnoreCaseAt(prefix + s, sub, k)
    {
      MatchesIgnoreCaseAtShift(prefix, s, sub, k - |prefix|);
    }
    MatchesIgnoreCaseAtShift(prefix, s, sub, m);
  }

  /** A reference tag followed by text without quotes and then another reference tag holds no
      `Version="` that starts before the second tag. */
  lemma {:induction false} NoVersionAttrBeforeNextTag(packageId: string, gap: string, other: string, more: string)
    requires forall k :: 0 <= k < |packageId| ==> IsPackageIdChar(packageId[k])
    requires '"' !in gap
    ensures var prefix := PackageReferenceTag(packageId) + gap;
      var xml := prefix + (PackageReferenceTag(other) + more);
      MatchesIgnoreCaseAt(xml, PackageReferenceTag(packageId), 0) &&
      forall k :: 0 <= k < |prefix| ==> !MatchesIgnoreCaseAt(xml, VersionAttr, k)
  {
    var tag := PackageReferenceTag(packageId);
    var tag2 := PackageReferenceTag(other);
    var xml := tag + gap + (tag2 + more);
    assert xml[..|tag|] == tag;
    MatchesIgnoreCaseAtSlice(xml, tag, 0);
    var piece := gap + "<Package";
    assert tag2[..8] == "<Package";
    assert xml[|tag|..|tag| + |piece|] == piece;
    NoVersionAttrAcross(xml, packageId, 0, piece);
  }

  /** Concatenation regrouped. */
  lemma Regroup(a: string, b: string, c: string, d: string, e: string, f: string, g: string, h: string)
    ensures a + b + (c + d + e + (f + g + h)) == a + b + c + d + e + f + g + h
    ensures c + d + e + (f + g + h) == c + (d + e + (f + g + h))
  {
  }

  /** Behind a reference without a version and a second reference, the first `Version="` is
      the second reference's attribute. */
  lemma {:induction false} SecondReferenceLayout(packageId: string, gap: string, other: string,
                                                 otherGap: string, version: string, rest: string)
    requires forall k :: 0 <= k < |packageId| ==> IsPackageIdChar(packageId[k])
    requires forall k :: 0 <= k < |other| ==> IsPackageIdChar(other[k])
    requires '"' !in gap && '"' !in otherGap
    ensures var xml := PackageReferenceTag(packageId) + gap + PackageReferenceTag(other) + otherGap +
                       VersionAttr + version + "\"" + rest;
      var at := |PackageReferenceTag(packageId)| + |gap| + |PackageReferenceTag(other)| + |otherGap|;
      MatchesIgnoreCaseAt(xml, PackageReferenceTag(packageId), 0) &&
      MatchesIgnoreCaseAt(xml, VersionAttr, at) &&
      forall k :: 0 <= k < at ==> !MatchesIgnoreCaseAt(xml, VersionAttr, k)
  {
    var tag2 := PackageReferenceTag(other);
    var more := version + "\"" + rest;
    var tail := tag2 + otherGap + VersionAttr + more;
    var prefix := PackageReferenceTag(packageId) + gap;
    Regroup(PackageReferenceTag(packageId), gap, tag2, otherGap, VersionAttr, version, "\"", rest);
    ReferenceAttributeLayout(other, otherGap, more);
    NoVersionAttrBeforeNextTag(packageId, gap, other, otherGap + VersionAttr + more);
    ShiftedFirstMatch(prefix, tail, VersionAttr, |tag2| + |otherGap|);
  }

  /** As written, the attribute search is not bounded by the end of the package's own element:
      a reference that carries no version, closed and followed by another reference that has
      one, is given the other package's version. */
  lemma {:induction false} ExtractPackageVersionCrossesElement(packageId: string, gap: string, other: string,
                                                               otherGap: string, version: string, rest: string)
    requires forall k :: 0 <= k < |packageId| ==> IsPackageIdChar(packageId[k])
    requires forall k :: 0 <= k < |other| ==> IsPackageIdChar(other[k])
    requires '"' !in gap && '>' in gap && '"' !in otherGap && '"' !in version
    ensures ExtractPackageVersion(PackageReferenceTag(packageId) + gap + PackageReferenceTag(other) +
                                  otherGap + VersionAttr + version + "\"" + rest,
                                  packageId) == Some(version)
  {
    var head := PackageReferenceTag(packageId) + gap + PackageReferenceTag(other) + otherGap + VersionAttr;
    SecondReferenceLayout(packageId, gap, other, otherGap, version, rest);
    ReferenceValueLayout(head, version, rest);
    ExtractPackageVersionAt(head + version + "\"" + rest, packageId, 0, |head| - |VersionAttr|, version);
  }

  /** The bounded scan never reads a different version than the scan as written: it only gives
      up where the first `Version="` lies beyond the element's end. */
  lemma {:induction false} ExtractOwnPackageVersionRefines(xml: string, packageId: string)
    ensures ExtractOwnPackageVersion(xml, packageId).Some? ==>
              ExtractOwnPackageVersion(xml, packageId) == ExtractPackageVersion(xml, packageId)
  {
    match IndexOfIgnoreCase(xml, PackageReferenceTag(packageId), 0)
    case None =>
    case Some(idx) =>
      AttributeValueBeforeRefines(xml, VersionAttr, idx, ElementEnd(xml, idx));
  }

  /** The bounded scan reads the value behind the first attribute after the first reference tag
      when no `>` comes between the tag and that attribute's quote. */
  lemma {:induction false} ExtractOwnPackageVersionAt(xml: string, packageId: string, idx: nat, v: nat, value: string)
    requires FirstMatchIgnoreCase(xml, PackageReferenceTag(packageId), 0, idx)
    requires FirstMatchIgnoreCase(xml, VersionAttr, idx, v)
    requires NoElementEndIn(xml, idx, v + |VersionAttr|)
    requires QuotedValue(xml, v + |VersionAttr|) == Some(value)
    ensures ExtractOwnPackageVersion(xml, packageId) == Some(value)
  {
    IndexOfIgnoreCaseFindsFirst(xml, PackageReferenceTag(packageId), 0, idx);
    AttributeValueInElementAt(xml, VersionAttr, idx, v, value);
  }

  /** The search within an element reads the value behind its first match when no `>` comes
      before that match ends. */
  lemma {:induction false} AttributeValueInElementAt(xml: string, attr: string, idx: nat, v: nat, value: string)
    requires FirstMatchIgnoreCase(xml, attr, idx, v)
    requires NoElementEndIn(xml, idx, v + |attr|)
    requires QuotedValue(xml, v + |attr|) == Some(value)
    ensures AttributeValueInElement(xml, attr, idx) == Some(value)
  {
    var end := ElementEnd(xml, idx);
    assert v + |attr| <= end;
    AttributeValueBeforeAt(xml, attr, idx, end, v, value);
  }

  /** Without a `>` in the text between them, no `>` stands before the end of the attribute that
      follows a reference tag. */
  lemma {:induction false} NoElementEndBefore(packageId: string, gap: string, version: string, rest: string)
    requires forall k :: 0 <= k < |packageId| ==> IsPackageIdChar(packageId[k])
    requires '>' !in gap
    ensures var tag := PackageReferenceTag(packageId);
      var xml := tag + gap + VersionAttr + version + "\"" + rest;
      forall k :: 0 <= k < |tag| + |gap| + |VersionAttr| ==> xml[k] != '>'
  {
    var tag := PackageReferenceTag(packageId);
    var xml := tag + gap + VersionAttr + version + "\"" + rest;
    PackageReferenceTagShape(packageId);
    forall k | 0 <= k < |tag| + |gap| + |VersionAttr|
      ensures xml[k] != '>'
    {
      if k < |tag| {
        assert xml[k] == tag[k];
      } else if k < |tag| + |gap| {
        assert xml[k] == gap[k - |tag|];
      } else {
        assert xml[k] == VersionAttr[k - |tag| - |gap|];
      }
    }
  }

  /** A reference written as `<PackageReference Include="id" Version="v"` still yields `v`. */
  lemma {:induction false} ExtractOwnPackageVersionOfReference(packageId: string, version: string, rest: string)
    requires forall k :: 0 <= k < |packageId| ==> IsPackageIdChar(packageId[k])
    requires '"' !in version
    ensures ExtractOwnPackageVersion(PackageReferenceTag(packageId) + " " + VersionAttr + version + "\"" + rest,
                                     packageId) == Some(version)
  {
    var tag := PackageReferenceTag(packageId);
    ReferenceLayout(packageId, " ", version, rest);
    NoElementEndBefore(packageId, " ", version, rest);
    assert NoElementEndIn(tag + " " + VersionAttr + version + "\"" + rest, 0, |tag| + 1 + |VersionAttr|);
    ExtractOwnPackageVersionAt(tag + " " + VersionAttr + version + "\"" + rest, packageId, 0, |tag| + 1, version);
  }

  /** A reference closed before any `Version="` gets no version, whatever follows it. */
  lemma {:induction false} ExtractOwnPackageVersionStopsAtElementEnd(packageId: string, gap: string, more: string)
    requires forall k :: 0 <= k < |packageId| ==> IsPackageIdChar(packageId[k])
    requires '"' !in gap && '>' in gap
    ensures ExtractOwnPackageVersion(PackageReferenceTag(packageId) + gap + more, packageId) == None
  {
    var tag := PackageReferenceTag(packageId);
    var xml := tag + gap + more;
    var n := |tag|;
    assert xml[..n] == tag;
    MatchesIgnoreCaseAtSlice(xml, tag, 0);
    IndexOfIgnoreCaseFinds(xml, tag, 0, 0);
    var p :| 0 <= p < |gap| && gap[p] == '>';
    assert xml[n + p] == '>';
    var end := ElementEnd(xml, 0);
    assert end <= n + p;
    assert xml[n..n + |gap|] == gap;
    NoVersionAttrAcross(xml, packageId, 0, gap);
    AttributeValueBeforeMissing(xml, VersionAttr, 0, end);
  }
}
