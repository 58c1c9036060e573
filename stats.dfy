/** The library and extension counts of the statistics file
    (scripts/create-stats.ts): a scan of the Simple Icons README that counts
    the table rows under the "Third-Party Extensions" and "Third-Party
    Libraries" headings. */
module Stats {
  import opened Strings

  const ExtensionsHeader: string := "Third-Party Extensions"
  const LibrariesHeader: string := "Third-Party Libraries"
  /** The start of a table row that links to a project. */
  const RowStart: string := "| ["

  /** The scan's state: the section it is in and the rows counted so far. */
  datatype Counts = Counts(insideExtensions: bool, insideLibraries: bool,
                           extensions: nat, libraries: nat)

  const Start: Counts := Counts(false, false, 0, 0)

  /** A line naming one of the two sections. */
  predicate IsHeader(line: string)
  {
    Contains(line, ExtensionsHeader) || Contains(line, LibrariesHeader)
  }

  predicate IsRow(line: string)
  {
    StartsWith(line, RowStart)
  }

  /** The effect of one line. A header line switches the section (the
      extensions header is tested first) and is never counted; a row counts
      in the current section, and in neither outside both. */
  function Step(c: Counts, line: string): (r: Counts)
    ensures IsHeader(line) ==> r.extensions == c.extensions && r.libraries == c.libraries
    ensures Contains(line, ExtensionsHeader) ==> r.insideExtensions && !r.insideLibraries
    ensures !Contains(line, ExtensionsHeader) && Contains(line, LibrariesHeader) ==>
      !r.insideExtensions && r.insideLibraries
    ensures !IsHeader(line) ==> r.insideExtensions == c.insideExtensions && r.insideLibraries == c.insideLibraries
    ensures r.extensions == c.extensions + (if !IsHeader(line) && IsRow(line) && c.insideExtensions then 1 else 0)
    ensures r.libraries == c.libraries
      + (if !IsHeader(line) && IsRow(line) && !c.insideExtensions && c.insideLibraries then 1 else 0)
  {
    if Contains(line, ExtensionsHeader) then c.(insideExtensions := true, insideLibraries := false)
    else if Contains(line, LibrariesHeader) then c.(insideExtensions := false, insideLibraries := true)
    else if IsRow(line) then
      if c.insideExtensions then c.(extensions := c.extensions + 1)
      else if c.insideLibraries then c.(libraries := c.libraries + 1)
      else c
    else c
  }

  /** The loop breaks after a line that is not a header, starts with '#'
      and leaves both counts positive. */
  predicate StopsAt(r: Counts, line: string)
  {
    !IsHeader(line) && r.extensions > 0 && r.libraries > 0 && StartsWith(line, "#")
  }

  /** The counts after scanning `lines` from `c`. */
  function Scan(lines: seq<string>, c: Counts): Counts
  {
    if lines == [] then c
    else
      var r := Step(c, lines[0]);
      if StopsAt(r, lines[0]) then r else Scan(lines[1..], r)
  }

  /** `countNumberOfLibrariesAndExtensions`. */
  method CountNumberOfLibrariesAndExtensions(readmeContent: string)
    returns (numberOfLibraries: nat, numberOfExtensions: nat)
    ensures var r := Scan(Split(readmeContent, '\n'), Start);
      numberOfLibraries == r.libraries && numberOfExtensions == r.extensions
  {
    var insideExtensions, insideLibraries := false, false;
    numberOfExtensions, numberOfLibraries := 0, 0;
    var lines := Split(readmeContent, '\n');
    var i := 0;
    while i < |lines|
      invariant 0 <= i <= |lines|
      invariant Scan(lines, Start)
        == Scan(lines[i..], Counts(insideExtensions, insideLibraries, numberOfExtensions, numberOfLibraries))
    {
      var line := lines[i];
      ghost var before := Counts(insideExtensions, insideLibraries, numberOfExtensions, numberOfLibraries);
      assert lines[i..][0] == line && lines[i..][1..] == lines[i + 1..];
      if Contains(line, ExtensionsHeader) {
        insideExtensions := true;
        insideLibraries := false;
        i := i + 1;
        continue;
      }
      if Contains(line, LibrariesHeader) {
        insideExtensions := false;
        insideLibraries := true;
        i := i + 1;
        continue;
      }
      if StartsWith(line, RowStart) {
        if insideExtensions {
          numberOfExtensions := numberOfExtensions + 1;
        } else if insideLibraries {
          numberOfLibraries := numberOfLibraries + 1;
        }
      }
      assert Step(before, line)
        == Counts(insideExtensions, insideLibraries, numberOfExtensions, numberOfLibraries);
      if numberOfExtensions > 0 && numberOfLibraries > 0 && StartsWith(line, "#") {
        break;
      }
      i := i + 1;
    }
  }

  /** Outside both sections nothing is counted: lines without a header
      leave the counts of a scan that is in neither section as they are. */
  lemma {:induction false} OutsideSectionsNotCounted(lines: seq<string>, c: Counts)
    requires !c.insideExtensions && !c.insideLibraries
    requires forall k :: 0 <= k < |lines| ==> !IsHeader(lines[k])
    ensures Scan(lines, c) == c
  {
    if lines != [] {
      OutsideSectionsNotCounted(lines[1..], c);
    }
  }

  /** In particular, the lines before the first header of a README are
      never counted. */
  lemma BeforeHeadersNotCounted(pre: seq<string>, rest: seq<string>)
    requires forall k :: 0 <= k < |pre| ==> !IsHeader(pre[k])
    ensures Scan(pre + rest, Start) == Scan(rest, Start)
  {
    ScanAppendUnstopped(pre, rest, Start);
    OutsideSectionsNotCounted(pre, Start);
  }

  /** A scan that never stops within `pre` continues on `rest` from where
      `pre` left it. */
  lemma {:induction false} ScanAppendUnstopped(pre: seq<string>, rest: seq<string>, c: Counts)
    requires !c.insideExtensions && !c.insideLibraries && c.extensions == 0
    requires forall k :: 0 <= k < |pre| ==> !IsHeader(pre[k])
    ensures Scan(pre + rest, c) == Scan(rest, Scan(pre, c))
  {
    if pre != [] {
      assert (pre + rest)[0] == pre[0];
      assert (pre + rest)[1..] == pre[1..] + rest;
      ScanAppendUnstopped(pre[1..], rest, c);
    } else {
      assert pre + rest == rest;
    }
  }

  /** Once both counts are positive, the first line starting with '#' that
      is not a section header ends the scan: nothing after it is read. */
  lemma StopAtHeading(c: Counts, line: string, rest: seq<string>)
    requires c.extensions > 0 && c.libraries > 0
    requires StartsWith(line, "#") && !IsHeader(line)
    ensures Scan([line] + rest, c) == c
  {
    assert line[0] == '#';
    assert ([line] + rest)[0] == line;
  }

  /** The number of table rows among `lines`. */
  function RowCount(lines: seq<string>): nat
  {
    if lines == [] then 0 else (if IsRow(lines[0]) then 1 else 0) + RowCount(lines[1..])
  }

  /** Counts only grow, and by at most the number of table rows scanned. */
  lemma {:induction false} ScanBounded(lines: seq<string>, c: Counts)
    ensures var r := Scan(lines, c);
      c.extensions <= r.extensions && c.libraries <= r.libraries
      && r.extensions + r.libraries <= c.extensions + c.libraries + RowCount(lines)
  {
    if lines != [] {
      ScanBounded(lines[1..], Step(c, lines[0]));
    }
  }

  /** The two heading lines of the example below, each naming one section
      and not the other. */
  lemma ExampleHeadings()
    ensures Contains("## Third-Party Extensions", ExtensionsHeader)
    ensures Contains("## Third-Party Libraries", LibrariesHeader)
    ensures !Contains("## Third-Party Libraries", ExtensionsHeader)
  {
    var e, l := "## Third-Party Extensions", "## Third-Party Libraries";
    assert e == "## " + ExtensionsHeader;
    ContainsAfterPrefix("## ", ExtensionsHeader);
    assert l == "## " + LibrariesHeader;
    ContainsAfterPrefix("## ", LibrariesHeader);
    forall i: nat | i <= |l|
      ensures !OccursAt(l, ExtensionsHeader, i)
    {
      if i + |ExtensionsHeader| <= |l| {
        var k := if i == 3 then 12 else 0;
        assert l[i..i + |ExtensionsHeader|][k] == l[i + k] != ExtensionsHeader[k];
      }
    }
  }

  lemma ContainsAfterPrefix(prefix: string, p: string)
    ensures Contains(prefix + p, p)
  {
    assert (prefix + p)[|prefix|..|prefix| + |p|] == p;
    assert OccursAt(prefix + p, p, |prefix|);
  }

  /** Lines shorter than both headings are not headers. */
  lemma ShortLineNotHeader(line: string)
    requires |line| < |LibrariesHeader|
    ensures !IsHeader(line)
  {
  }

  /** A small README: one extension row and two library rows are counted;
      the row under the next heading is not. */
  lemma SmallReadme()
    ensures Scan(["## Third-Party Extensions", "| [a] |", "## Third-Party Libraries",
                  "| [b] |", "| [c] |", "## Legal", "| [d] |"], Start)
            == Counts(false, true, 1, 2)
  {
    var lines := ["## Third-Party Extensions", "| [a] |", "## Third-Party Libraries",
                  "| [b] |", "| [c] |", "## Legal", "| [d] |"];
    ExampleHeadings();
    ShortLineNotHeader(lines[1]);
    ShortLineNotHeader(lines[3]);
    ShortLineNotHeader(lines[4]);
    ShortLineNotHeader(lines[5]);
    assert IsRow(lines[1]) && IsRow(lines[3]) && IsRow(lines[4]);
    var c1 := Counts(true, false, 0, 0);
    var c2 := Counts(true, false, 1, 0);
    var c3 := Counts(false, true, 1, 0);
    var c4 := Counts(false, true, 1, 1);
    var c5 := Counts(false, true, 1, 2);
    assert lines[3][0] == '|' && !StartsWith(lines[3], "#");
    assert StartsWith(lines[5], "#");
    StopAtHeading(c5, lines[5], lines[6..]);
    assert lines[5..] == [lines[5]] + lines[6..];
    ScanStep(lines, 4, c4, c5);
    ScanStep(lines, 3, c3, c4);
    ScanStep(lines, 2, c2, c3);
    ScanStep(lines, 1, c1, c2);
    ScanStep(lines, 0, Start, c1);
  }

  /** One line of a scan that does not stop there. */
  lemma ScanStep(lines: seq<string>, i: nat, c: Counts, r: Counts)
    requires i < |lines| && Step(c, lines[i]) == r && !StopsAt(r, lines[i])
    ensures Scan(lines[i..], c) == Scan(lines[i + 1..], r)
  {
    assert lines[i..][0] == lines[i] && lines[i..][1..] == lines[i + 1..];
  }
}
