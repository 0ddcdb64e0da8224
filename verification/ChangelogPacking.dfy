/**
  Packing a changelog post into chat messages.

  A post is cut at blank lines into sections; sections are packed whole, in order, into
  messages of at most `limit` characters; a section longer than that is packed line by line.
  A character stands for one code unit of the original strings.
 */
module ChangelogPacking {

  const DISCORD_MAX: nat := 2000

  // ---------------------------------------------------------------------------------------
  // Text: splitting and joining
  // ---------------------------------------------------------------------------------------

  /** Puts a character in front of the first part. */
  function Glue(c: char, parts: seq<string>): (glued: seq<string>)
    requires parts != []
    ensures |glued| == |parts|
  {
    [[c] + parts[0]] + parts[1..]
  }

  /** Splits at every newline. */
  function Lines(s: string): (lines: seq<string>)
    ensures lines != []
  {
    if s == "" then [""]
    else if s[0] == '\n' then [""] + Lines(s[1..])
    else Glue(s[0], Lines(s[1..]))
  }

  /** Splits at every pair of newlines, leftmost first and without overlap. */
  function Sections(s: string): (sections: seq<string>)
    ensures sections != []
  {
    if s == "" then [""]
    else if |s| >= 2 && s[0] == '\n' && s[1] == '\n' then [""] + Sections(s[2..])
    else Glue(s[0], Sections(s[1..]))
  }

  function Join(sections: seq<string>): string {
    if sections == [] then ""
    else if |sections| == 1 then sections[0]
    else sections[0] + "\n\n" + Join(sections[1..])
  }

  lemma JoinGlue(c: char, parts: seq<string>)
    requires parts != []
    ensures Join(Glue(c, parts)) == [c] + Join(parts)
  {
    assert Glue(c, parts)[1..] == parts[1..];
    if |parts| > 1 {
      assert [c] + parts[0] + "\n\n" + Join(parts[1..]) == [c] + (parts[0] + "\n\n" + Join(parts[1..]));
    }
  }

  lemma {:induction false} JoinOfSections(s: string)
    ensures Join(Sections(s)) == s
  {
    if s == "" {
    } else if |s| >= 2 && s[0] == '\n' && s[1] == '\n' {
      JoinOfSections(s[2..]);
      var rest := Sections(s[2..]);
      assert ([""] + rest)[1..] == rest;
      assert Join([""] + rest) == "" + "\n\n" + Join(rest);
      assert s == "" + "\n\n" + s[2..];
    } else {
      JoinOfSections(s[1..]);
      JoinGlue(s[0], Sections(s[1..]));
      assert s == [s[0]] + s[1..];
    }
  }

  function NonEmpty(lines: seq<string>): seq<string> {
    if lines == [] then []
    else if lines[0] == "" then NonEmpty(lines[1..])
    else [lines[0]] + NonEmpty(lines[1..])
  }

  /** The non-empty lines of a text, in order. */
  function Content(s: string): seq<string> {
    NonEmpty(Lines(s))
  }

  function ContentOfAll(texts: seq<string>): seq<string> {
    if texts == [] then [] else ContentOfAll(texts[..|texts| - 1]) + Content(texts[|texts| - 1])
  }

  lemma GlueConcat(c: char, a: seq<string>, b: seq<string>)
    requires a != []
    ensures Glue(c, a + b) == Glue(c, a) + b
  {
    assert (a + b)[1..] == a[1..] + b;
  }

  lemma {:induction false} LinesAcrossNewline(a: string, b: string)
    ensures Lines(a + "\n" + b) == Lines(a) + Lines(b)
  {
    var s := a + "\n" + b;
    if a == "" {
      assert s[1..] == b;
    } else {
      LinesAcrossNewline(a[1..], b);
      assert s[0] == a[0] && s[1..] == a[1..] + "\n" + b;
      if a[0] == '\n' {
        assert [""] + (Lines(a[1..]) + Lines(b)) == [""] + Lines(a[1..]) + Lines(b);
      } else {
        GlueConcat(a[0], Lines(a[1..]), Lines(b));
      }
    }
  }

  lemma {:induction false} NonEmptyConcat(a: seq<string>, b: seq<string>)
    ensures NonEmpty(a + b) == NonEmpty(a) + NonEmpty(b)
  {
    if a == [] {
      assert a + b == b;
    } else {
      NonEmptyConcat(a[1..], b);
      assert (a + b)[0] == a[0] && (a + b)[1..] == a[1..] + b;
      ConcatAssociates([a[0]], NonEmpty(a[1..]), NonEmpty(b));
    }
  }

  lemma ConcatAssociates(a: seq<string>, b: seq<string>, c: seq<string>)
    ensures a + b + c == a + (b + c)
  {
  }

  lemma ContentAcrossNewline(a: string, b: string)
    ensures Content(a + "\n" + b) == Content(a) + Content(b)
  {
    LinesAcrossNewline(a, b);
    NonEmptyConcat(Lines(a), Lines(b));
  }

  lemma ContentAcrossBlank(a: string, b: string)
    ensures Content(a + "\n\n" + b) == Content(a) + Content(b)
  {
    assert a + "\n\n" + b == a + "\n" + ("" + "\n" + b);
    ContentAcrossNewline(a, "" + "\n" + b);
    ContentAcrossNewline("", b);
  }

  lemma ContentOfAllAppend(texts: seq<string>, s: string)
    ensures ContentOfAll(texts + [s]) == ContentOfAll(texts) + Content(s)
  {
    assert (texts + [s])[..|texts|] == texts;
  }

  /** A line that has no newline is its own content. */
  lemma {:induction false} LineIsItsLines(line: string)
    requires '\n' !in line
    ensures Lines(line) == [line]
  {
    if line != "" {
      LineIsItsLines(line[1..]);
      assert line == [line[0]] + line[1..];
    }
  }

  lemma {:induction false} LinesHaveNoNewline(s: string)
    ensures forall i :: 0 <= i < |Lines(s)| ==> '\n' !in Lines(s)[i]
  {
    if s != "" {
      LinesHaveNoNewline(s[1..]);
    }
  }

  // ---------------------------------------------------------------------------------------
  // Packing, step by step
  // ---------------------------------------------------------------------------------------

  /** Messages already closed, and the one being filled. */
  datatype Packing = Packing(chunks: seq<string>, current: string)

  function AddLine(p: Packing, line: string, limit: nat): Packing {
    if p.current != "" && |p.current| + 1 + |line| > limit then Packing(p.chunks + [p.current], line)
    else Packing(p.chunks, if p.current != "" then p.current + "\n" + line else line)
  }

  function AddLines(p: Packing, lines: seq<string>, limit: nat): Packing {
    if lines == [] then p else AddLine(AddLines(p, lines[..|lines| - 1], limit), lines[|lines| - 1], limit)
  }

  /** Closes the message being filled when the section does not fit behind it. */
  function Flush(p: Packing, section: string, limit: nat): Packing {
    if p.current != "" && |p.current| + 2 + |section| > limit then Packing(p.chunks + [p.current], "") else p
  }

  function AddSection(p: Packing, section: string, limit: nat): Packing {
    var q := Flush(p, section, limit);
    if |section| > limit then AddLines(q, Lines(section), limit)
    else Packing(q.chunks, if q.current != "" then q.current + "\n\n" + section else section)
  }

  function AddSections(p: Packing, sections: seq<string>, limit: nat): Packing {
    if sections == [] then p
    else AddSection(AddSections(p, sections[..|sections| - 1], limit), sections[|sections| - 1], limit)
  }

  function Finish(p: Packing): seq<string> {
    if p.current != "" then p.chunks + [p.current] else p.chunks
  }

  /** The messages for a post. */
  function Messages(content: string, limit: nat): seq<string> {
    Finish(AddSections(Packing([], ""), Sections(content), limit))
  }

  method LinePack(chunks: seq<string>, current: string, section: string, limit: nat)
    returns (chunks': seq<string>, current': string)
    ensures Packing(chunks', current') == AddLines(Packing(chunks, current), Lines(section), limit)
  {
    chunks', current' := chunks, current;
    var lines := Lines(section);
    for i := 0 to |lines|
      invariant Packing(chunks', current') == AddLines(Packing(chunks, current), lines[..i], limit)
    {
      var line := lines[i];
      assert lines[..i + 1][..i] == lines[..i];
      if current' != "" && |current'| + 1 + |line| > limit {
        chunks' := chunks' + [current'];
        current' := line;
      } else {
        current' := if current' != "" then current' + "\n" + line else line;
      }
    }
    assert lines[..|lines|] == lines;
  }

  method Chunk(content: string, limit: nat := DISCORD_MAX) returns (chunks: seq<string>)
    ensures chunks == Messages(content, limit)
  {
    chunks := [];
    var current := "";
    var sections := Sections(content);
    for i := 0 to |sections|
      invariant Packing(chunks, current) == AddSections(Packing([], ""), sections[..i], limit)
    {
      var section := sections[i];
      assert sections[..i + 1][..i] == sections[..i];
      var sep := if current != "" then 2 else 0;
      if current != "" && |current| + sep + |section| > limit {
        chunks := chunks + [current];
        current := "";
      }
      if |section| > limit {
        chunks, current := LinePack(chunks, current, section, limit);
      } else {
        current := if current != "" then current + "\n\n" + section else section;
      }
    }
    assert sections[..|sections|] == sections;
    if current != "" {
      chunks := chunks + [current];
    }
  }

  // ---------------------------------------------------------------------------------------
  // Size: every message is non-empty and fits, or is one over-long line
  // ---------------------------------------------------------------------------------------

  predicate FitsOrOneLine(message: string, limit: nat) {
    |message| <= limit || '\n' !in message
  }

  ghost predicate AllFit(messages: seq<string>, limit: nat) {
    forall i :: 0 <= i < |messages| ==> messages[i] != "" && FitsOrOneLine(messages[i], limit)
  }

  ghost predicate Sized(p: Packing, limit: nat) {
    AllFit(p.chunks, limit) && FitsOrOneLine(p.current, limit)
  }

  lemma {:induction false} AddLinesSized(p: Packing, lines: seq<string>, limit: nat)
    requires Sized(p, limit)
    requires forall i :: 0 <= i < |lines| ==> '\n' !in lines[i]
    ensures Sized(AddLines(p, lines, limit), limit)
  {
    if lines != [] {
      AddLinesSized(p, lines[..|lines| - 1], limit);
    }
  }

  lemma {:induction false} AddSectionsSized(p: Packing, sections: seq<string>, limit: nat)
    requires Sized(p, limit)
    ensures Sized(AddSections(p, sections, limit), limit)
  {
    if sections != [] {
      var front, section := sections[..|sections| - 1], sections[|sections| - 1];
      AddSectionsSized(p, front, limit);
      var q := Flush(AddSections(p, front, limit), section, limit);
      if |section| > limit {
        LinesHaveNoNewline(section);
        AddLinesSized(q, Lines(section), limit);
      }
    }
  }

  lemma MessagesFit(content: string, limit: nat)
    ensures AllFit(Messages(content, limit), limit)
  {
    AddSectionsSized(Packing([], ""), Sections(content), limit);
  }

  // ---------------------------------------------------------------------------------------
  // No loss: the non-empty lines come out in order, each exactly once
  // ---------------------------------------------------------------------------------------

  function Held(p: Packing): seq<string> {
    ContentOfAll(p.chunks) + Content(p.current)
  }

  lemma FlushHolds(chunks: seq<string>, current: string)
    ensures Held(Packing(chunks + [current], "")) == Held(Packing(chunks, current))
  {
    ContentOfAllAppend(chunks, current);
  }

  lemma LineContent(line: string)
    requires '\n' !in line
    ensures Content(line) == NonEmpty([line]) && Content("") == []
  {
    LineIsItsLines(line);
  }

  lemma AddLineHolds(p: Packing, line: string, limit: nat)
    requires '\n' !in line
    ensures Held(AddLine(p, line, limit)) == Held(p) + NonEmpty([line])
  {
    hide Content, NonEmpty, ContentOfAll;
    LineContent(line);
    if p.current == "" {
      assert ContentOfAll(p.chunks) + [] == ContentOfAll(p.chunks);
    } else if |p.current| + 1 + |line| > limit {
      ContentOfAllAppend(p.chunks, p.current);
    } else {
      ContentAcrossNewline(p.current, line);
      ConcatAssociates(ContentOfAll(p.chunks), Content(p.current), Content(line));
    }
  }

  lemma {:induction false} AddLinesHolds(p: Packing, lines: seq<string>, limit: nat)
    requires forall i :: 0 <= i < |lines| ==> '\n' !in lines[i]
    ensures Held(AddLines(p, lines, limit)) == Held(p) + NonEmpty(lines)
  {
    if lines != [] {
      var front, line := lines[..|lines| - 1], lines[|lines| - 1];
      AddLinesHolds(p, front, limit);
      assert lines == front + [line];
      NonEmptyConcat(front, [line]);
      AddLineHolds(AddLines(p, front, limit), line, limit);
      ConcatAssociates(Held(p), NonEmpty(front), NonEmpty([line]));
    } else {
      assert Held(p) + NonEmpty(lines) == Held(p);
    }
  }

  lemma AddSectionHolds(p: Packing, section: string, limit: nat)
    ensures Held(AddSection(p, section, limit)) == Held(p) + Content(section)
  {
    var q := Flush(p, section, limit);
    FlushHolds(p.chunks, p.current);
    assert Held(q) == Held(p);
    if |section| > limit {
      LinesHaveNoNewline(section);
      AddLinesHolds(q, Lines(section), limit);
    } else {
      ContentAcrossBlank(q.current, section);
    }
  }

  lemma {:induction false} AddSectionsHolds(p: Packing, sections: seq<string>, limit: nat)
    ensures Held(AddSections(p, sections, limit)) == Held(p) + ContentOfAll(sections)
  {
    if sections != [] {
      var front, section := sections[..|sections| - 1], sections[|sections| - 1];
      AddSectionsHolds(p, front, limit);
      AddSectionHolds(AddSections(p, front, limit), section, limit);
      ConcatAssociates(Held(p), ContentOfAll(front), Content(section));
    } else {
      assert Held(p) + ContentOfAll(sections) == Held(p);
    }
  }

  lemma {:induction false} ContentOfJoin(sections: seq<string>)
    ensures Content(Join(sections)) == ContentOfAll(sections)
  {
    if |sections| == 1 {
      assert sections == [] + [sections[0]];
      ContentOfAllAppend([], sections[0]);
    } else if |sections| > 1 {
      ContentOfJoin(sections[1..]);
      ContentAcrossBlank(sections[0], Join(sections[1..]));
      ContentOfAllPrepend(sections[0], sections[1..]);
      assert sections == [sections[0]] + sections[1..];
    }
  }

  lemma {:induction false} ContentOfAllPrepend(s: string, texts: seq<string>)
    ensures ContentOfAll([s] + texts) == Content(s) + ContentOfAll(texts)
  {
    hide Content;
    if texts == [] {
      assert [s] + texts == [] + [s];
      ContentOfAllAppend([], s);
    } else {
      var front, last := texts[..|texts| - 1], texts[|texts| - 1];
      ContentOfAllPrepend(s, front);
      SplitLast(s, texts);
      ContentOfAllAppend([s] + front, last);
      ContentOfAllAppend(front, last);
      ConcatAssociates(Content(s), ContentOfAll(front), Content(last));
    }
  }

  lemma SplitLast(s: string, texts: seq<string>)
    requires texts != []
    ensures [s] + texts == [s] + texts[..|texts| - 1] + [texts[|texts| - 1]]
    ensures texts == texts[..|texts| - 1] + [texts[|texts| - 1]]
  {
  }

  /** The messages hold the non-empty lines of the post, in order and each exactly once. */
  lemma NothingIsLost(content: string, limit: nat)
    ensures ContentOfAll(Messages(content, limit)) == Content(content)
  {
    var p := AddSections(Packing([], ""), Sections(content), limit);
    AddSectionsHolds(Packing([], ""), Sections(content), limit);
    ContentOfJoin(Sections(content));
    JoinOfSections(content);
    ContentOfAllAppend(p.chunks, p.current);
    assert Held(Packing([], "")) == [] && Content("") == [];
    assert [] + ContentOfAll(Sections(content)) == ContentOfAll(Sections(content));
    assert ContentOfAll(p.chunks) + [] == ContentOfAll(p.chunks);
  }

  // ---------------------------------------------------------------------------------------
  // Exactly which posts keep every message within the limit
  // ---------------------------------------------------------------------------------------

  lemma {:induction false} NonEmptyMember(lines: seq<string>, l: string)
    ensures l in NonEmpty(lines) <==> l in lines && l != ""
  {
    if lines != [] {
      NonEmptyMember(lines[1..], l);
    }
  }

  lemma {:induction false} ContentOfAllMember(texts: seq<string>, l: string)
    ensures l in ContentOfAll(texts) <==> exists i :: 0 <= i < |texts| && l in Content(texts[i])
  {
    hide Content;
    if texts != [] {
      var front, last := texts[..|texts| - 1], texts[|texts| - 1];
      ContentOfAllMember(front, l);
      assert forall i :: 0 <= i < |front| ==> front[i] == texts[i];
      assert texts[|front|] == last;
    }
  }

  lemma {:induction false} LineIsNoLonger(s: string, i: nat)
    requires i < |Lines(s)|
    ensures |Lines(s)[i]| <= |s|
  {
    if s != "" {
      if s[0] != '\n' {
        LineIsNoLonger(s[1..], i);
      } else if i > 0 {
        LineIsNoLonger(s[1..], i - 1);
      }
    }
  }

  /** The messages over the limit are exactly the lines of the post that are over it. */
  lemma OverLongMessagesAreLines(content: string, limit: nat, text: string)
    requires |text| > limit
    ensures text in Messages(content, limit) <==> text in Lines(content)
  {
    hide Messages, Content;
    var messages := Messages(content, limit);
    MessagesFit(content, limit);
    NothingIsLost(content, limit);
    ContentOfAllMember(messages, text);
    ContentMember(content, text);
    if text in messages {
      LineIsItsContent(text);
    }
    if text in Lines(content) {
      var i :| 0 <= i < |messages| && text in Content(messages[i]);
      ContentMember(messages[i], text);
      var k :| 0 <= k < |Lines(messages[i])| && Lines(messages[i])[k] == text;
      LineIsNoLonger(messages[i], k);
      LineIsItsLines(messages[i]);
    }
  }

  lemma ContentMember(s: string, l: string)
    ensures l in Content(s) <==> l in Lines(s) && l != ""
  {
    NonEmptyMember(Lines(s), l);
  }

  lemma LineIsItsContent(line: string)
    requires '\n' !in line && line != ""
    ensures line in Content(line)
  {
    LineIsItsLines(line);
    ContentMember(line, line);
  }

  /** Every message is within the limit if and only if every line of the post is. */
  lemma WithinLimitExactly(content: string, limit: nat)
    ensures (forall m :: m in Messages(content, limit) ==> |m| <= limit) <==>
            (forall l :: l in Lines(content) ==> |l| <= limit)
  {
    forall text: string | |text| > limit
      ensures text in Messages(content, limit) <==> text in Lines(content)
    {
      OverLongMessagesAreLines(content, limit, text);
    }
  }

  /** A single line over the limit is sent as one message over the limit. */
  lemma OverLongLineIsSent(line: string, limit: nat)
    requires '\n' !in line && |line| > limit
    ensures line in Messages(line, limit) && !(forall m :: m in Messages(line, limit) ==> |m| <= limit)
  {
    LineIsItsLines(line);
    OverLongMessagesAreLines(line, limit, line);
  }

  // ---------------------------------------------------------------------------------------
  // A section that fits is never torn
  // ---------------------------------------------------------------------------------------

  ghost predicate WholeAt(text: string, section: string, k: nat) {
    && k + |section| <= |text| && text[k..k + |section|] == section
    && (k == 0 || (k >= 2 && text[k - 2..k] == "\n\n"))
    && (k + |section| == |text| || (k + |section| + 2 <= |text| && text[k + |section|..k + |section| + 2] == "\n\n"))
  }

  /** The section stands in the text between blank lines or text ends. */
  ghost predicate Whole(text: string, section: string) {
    exists k: nat :: WholeAt(text, section, k)
  }

  ghost predicate WholeInOne(messages: seq<string>, section: string) {
    exists i :: 0 <= i < |messages| && Whole(messages[i], section)
  }

  ghost predicate Placed(p: Packing, section: string) {
    WholeInOne(p.chunks, section) || Whole(p.current, section)
  }

  lemma WholeStays(text: string, section: string, more: string)
    requires Whole(text, section)
    ensures Whole(text + "\n\n" + more, section)
  {
    var k: nat :| WholeAt(text, section, k);
    assert WholeAt(text + "\n\n" + more, section, k);
  }

  lemma WholeAtEnd(text: string, section: string)
    ensures Whole(text + "\n\n" + section, section)
    ensures Whole(section, section)
  {
    assert (text + "\n\n" + section)[|text|..|text| + 2] == "\n\n";
    assert WholeAt(text + "\n\n" + section, section, |text| + 2);
    assert WholeAt(section, section, 0);
  }

  lemma WholeInMore(chunks: seq<string>, more: seq<string>, section: string)
    requires WholeInOne(chunks, section)
    ensures WholeInOne(chunks + more, section)
  {
    var i :| 0 <= i < |chunks| && Whole(chunks[i], section);
    assert (chunks + more)[i] == chunks[i];
  }

  lemma WholeInLast(chunks: seq<string>, text: string, section: string)
    requires Whole(text, section)
    ensures WholeInOne(chunks + [text], section)
  {
    assert (chunks + [text])[|chunks|] == text;
  }

  lemma {:induction false} AddLinesOnlyAppends(p: Packing, lines: seq<string>, limit: nat)
    ensures p.chunks <= AddLines(p, lines, limit).chunks
  {
    if lines != [] {
      AddLinesOnlyAppends(p, lines[..|lines| - 1], limit);
    }
  }

  lemma AddSectionKeepsPlaced(p: Packing, section: string, limit: nat, placed: string)
    requires placed != "" && Placed(p, placed)
    ensures Placed(AddSection(p, section, limit), placed)
  {
    var q := Flush(p, section, limit);
    if q != p {
      if WholeInOne(p.chunks, placed) {
        WholeInMore(p.chunks, [p.current], placed);
      } else {
        WholeInLast(p.chunks, p.current, placed);
      }
    }
    if |section| > limit {
      assert WholeInOne(q.chunks, placed);
      AddLinesOnlyAppends(q, Lines(section), limit);
      var end := AddLines(q, Lines(section), limit);
      assert end.chunks == q.chunks + end.chunks[|q.chunks|..];
      WholeInMore(q.chunks, end.chunks[|q.chunks|..], placed);
    } else if Whole(q.current, placed) {
      WholeStays(q.current, placed, section);
    }
  }

  lemma {:induction false} AddSectionsPlaces(p: Packing, sections: seq<string>, limit: nat, i: nat)
    requires i < |sections| && sections[i] != "" && |sections[i]| <= limit
    ensures Placed(AddSections(p, sections, limit), sections[i])
    decreases |sections|
  {
    var front, section := sections[..|sections| - 1], sections[|sections| - 1];
    var q := AddSections(p, front, limit);
    if i == |front| {
      WholeAtEnd(Flush(q, section, limit).current, section);
    } else {
      AddSectionsPlaces(p, front, limit, i);
      AddSectionKeepsPlaced(q, section, limit, sections[i]);
    }
  }

  /** Every non-empty section within the limit lies whole inside one message. */
  lemma SectionsStayWhole(content: string, limit: nat, i: nat)
    requires i < |Sections(content)|
    requires Sections(content)[i] != "" && |Sections(content)[i]| <= limit
    ensures WholeInOne(Messages(content, limit), Sections(content)[i])
  {
    var section := Sections(content)[i];
    var p := AddSections(Packing([], ""), Sections(content), limit);
    AddSectionsPlaces(Packing([], ""), Sections(content), limit, i);
    if WholeInOne(p.chunks, section) {
      WholeInMore(p.chunks, [p.current], section);
    } else {
      WholeInLast(p.chunks, p.current, section);
    }
  }

  // ---------------------------------------------------------------------------------------
  // Fewest messages
  // ---------------------------------------------------------------------------------------

  function Flatten(groups: seq<seq<string>>): seq<string> {
    if groups == [] then [] else groups[0] + Flatten(groups[1..])
  }

  /** An in-order cut of the sections into messages within the limit. */
  ghost predicate IsCut(groups: seq<seq<string>>, sections: seq<string>, limit: nat) {
    && Flatten(groups) == sections
    && (forall i :: 0 <= i < |groups| ==> |Join(groups[i])| <= limit)
  }

  /** Length of parts joined by separators of length `gap`. */
  function JoinLength(parts: seq<string>, gap: nat): nat {
    if parts == [] then 0
    else if |parts| == 1 then |parts[0]|
    else |parts[0]| + gap + JoinLength(parts[1..], gap)
  }

  lemma {:induction false} LengthOfJoin(sections: seq<string>)
    ensures |Join(sections)| == JoinLength(sections, 2)
  {
    if |sections| > 1 {
      LengthOfJoin(sections[1..]);
    }
  }

  /** Length of the message being filled after one more part. */
  function Next(filled: nat, part: string, gap: nat): nat {
    if filled == 0 then |part| else filled + gap + |part|
  }

  /** Messages the greedy packer still emits, the one being filled included. */
  function Need(filled: nat, parts: seq<string>, gap: nat, limit: nat): nat
    decreases |parts|
  {
    if parts == [] then (if filled == 0 then 0 else 1)
    else if filled > 0 && filled + gap + |parts[0]| > limit then 1 + Need(|parts[0]|, parts[1..], gap, limit)
    else Need(Next(filled, parts[0], gap), parts[1..], gap, limit)
  }

  /** A fuller message costs at most one message more, and never less. */
  lemma {:induction false} NeedIsMonotone(a: nat, b: nat, parts: seq<string>, gap: nat, limit: nat)
    requires a <= b
    ensures Need(a, parts, gap, limit) <= Need(b, parts, gap, limit) <= Need(a, parts, gap, limit) + 1
    decreases |parts|
  {
    if parts != [] {
      var s, rest := parts[0], parts[1..];
      var aBreaks := a > 0 && a + gap + |s| > limit;
      var bBreaks := b > 0 && b + gap + |s| > limit;
      if aBreaks {
      } else if bBreaks {
        NeedIsMonotone(|s|, Next(a, s, gap), rest, gap, limit);
      } else {
        NeedIsMonotone(Next(a, s, gap), Next(b, s, gap), rest, gap, limit);
      }
    }
  }

  function FilledBy(filled: nat, group: seq<string>, gap: nat): nat
    decreases |group|
  {
    if group == [] then filled else FilledBy(Next(filled, group[0], gap), group[1..], gap)
  }

  lemma {:induction false} FilledByGrows(filled: nat, group: seq<string>, gap: nat)
    ensures filled <= FilledBy(filled, group, gap)
    decreases |group|
  {
    if group != [] {
      FilledByGrows(Next(filled, group[0], gap), group[1..], gap);
    }
  }

  lemma {:induction false} FilledByJoin(filled: nat, group: seq<string>, gap: nat)
    requires group != []
    ensures FilledBy(filled, group, gap) <= (if filled == 0 then 0 else filled + gap) + JoinLength(group, gap)
    decreases |group|
  {
    if |group| > 1 {
      FilledByJoin(Next(filled, group[0], gap), group[1..], gap);
    }
  }

  /** Parts that fit one message behind `filled` are packed without closing it. */
  lemma {:induction false} GroupIsTaken(filled: nat, group: seq<string>, rest: seq<string>, gap: nat, limit: nat)
    requires FilledBy(filled, group, gap) <= limit
    ensures Need(filled, group + rest, gap, limit) <= 1 + Need(0, rest, gap, limit)
    decreases |group|
  {
    if group == [] {
      assert group + rest == rest;
      NeedIsMonotone(0, filled, rest, gap, limit);
    } else {
      assert (group + rest)[1..] == group[1..] + rest;
      FilledByGrows(Next(filled, group[0], gap), group[1..], gap);
      GroupIsTaken(Next(filled, group[0], gap), group[1..], rest, gap, limit);
    }
  }

  lemma {:induction false} NoCutNeedsFewer(groups: seq<seq<string>>, gap: nat, limit: nat)
    requires forall i :: 0 <= i < |groups| ==> JoinLength(groups[i], gap) <= limit
    ensures Need(0, Flatten(groups), gap, limit) <= |groups|
    decreases |groups|
  {
    if groups != [] {
      if groups[0] != [] {
        FilledByJoin(0, groups[0], gap);
      }
      GroupIsTaken(0, groups[0], Flatten(groups[1..]), gap, limit);
      NoCutNeedsFewer(groups[1..], gap, limit);
    }
  }

  /** For sections within the limit, the packer emits exactly what it needs. */
  lemma {:induction false} PackerEmitsNeed(p: Packing, front: seq<string>, rest: seq<string>, limit: nat)
    requires forall i :: 0 <= i < |rest| ==> |rest[i]| <= limit
    ensures
      var q := AddSections(p, front, limit);
      |Finish(AddSections(p, front + rest, limit))| == |q.chunks| + Need(|q.current|, rest, 2, limit)
    decreases |rest|
  {
    if rest == [] {
      assert front + rest == front;
    } else {
      var next := front + [rest[0]];
      assert next[..|front|] == front && next[|front|] == rest[0];
      assert next + rest[1..] == front + rest;
      PackerEmitsNeed(p, next, rest[1..], limit);
    }
  }

  lemma {:induction false} CutBoundsSections(groups: seq<seq<string>>, limit: nat)
    requires forall i :: 0 <= i < |groups| ==> |Join(groups[i])| <= limit
    ensures forall i :: 0 <= i < |Flatten(groups)| ==> |Flatten(groups)[i]| <= limit
  {
    if groups != [] {
      JoinBoundsSections(groups[0]);
      CutBoundsSections(groups[1..], limit);
    }
  }

  lemma {:induction false} JoinBoundsSections(group: seq<string>)
    ensures forall i :: 0 <= i < |group| ==> |group[i]| <= |Join(group)|
  {
    if |group| > 1 {
      JoinBoundsSections(group[1..]);
    }
  }

  /**
    No in-order cut of the sections into messages within the limit has fewer messages.  That a
    cut exists already says that every section fits, so nothing else is asked.
   */
  lemma FewestMessages(content: string, limit: nat, groups: seq<seq<string>>)
    requires IsCut(groups, Sections(content), limit)
    ensures |Messages(content, limit)| <= |groups|
  {
    CutBoundsSections(groups, limit);
    PackerEmitsNeed(Packing([], ""), [], Sections(content), limit);
    assert [] + Sections(content) == Sections(content);
    forall i | 0 <= i < |groups|
      ensures JoinLength(groups[i], 2) <= limit
    {
      LengthOfJoin(groups[i]);
    }
    NoCutNeedsFewer(groups, 2, limit);
  }

  // ---------------------------------------------------------------------------------------
  // The bound is attained: the messages are themselves such a cut
  // ---------------------------------------------------------------------------------------

  ghost predicate Joined(messages: seq<string>, groups: seq<seq<string>>) {
    |messages| == |groups| && forall i :: 0 <= i < |groups| ==> groups[i] != [] && messages[i] == Join(groups[i])
  }

  lemma {:induction false} JoinAppend(group: seq<string>, section: string)
    requires group != []
    ensures Join(group + [section]) == Join(group) + "\n\n" + section
  {
    if |group| > 1 {
      JoinAppend(group[1..], section);
      assert (group + [section])[1..] == group[1..] + [section];
    } else {
      assert (group + [section])[1..] == [section];
    }
  }

  lemma {:induction false} FlattenAppend(groups: seq<seq<string>>, group: seq<string>)
    ensures Flatten(groups + [group]) == Flatten(groups) + group
  {
    if groups == [] {
      assert groups + [group] == [group];
    } else {
      FlattenAppend(groups[1..], group);
      assert (groups + [group])[1..] == groups[1..] + [group];
    }
  }

  /** Closed groups make up the closed messages, and `open` the message being filled. */
  ghost predicate Grouped(p: Packing, done: seq<seq<string>>, open: seq<string>) {
    Joined(p.chunks, done) && p.current == Join(open) && (open == [] <==> p.current == "")
  }

  lemma GroupOneMore(p: Packing, section: string, limit: nat, done: seq<seq<string>>, open: seq<string>)
    returns (done': seq<seq<string>>, open': seq<string>)
    requires Grouped(p, done, open) && section != "" && |section| <= limit
    ensures Grouped(AddSection(p, section, limit), done', open')
    ensures Flatten(done') + open' == Flatten(done) + open + [section]
  {
    if p.current != "" && |p.current| + 2 + |section| > limit {
      FlattenAppend(done, open);
      done', open' := done + [open], [section];
    } else {
      done', open' := done, open + [section];
      if open != [] {
        JoinAppend(open, section);
      }
    }
  }

  lemma {:induction false} PackerGroups(sections: seq<string>, limit: nat)
    returns (done: seq<seq<string>>, open: seq<string>)
    requires forall i :: 0 <= i < |sections| ==> sections[i] != "" && |sections[i]| <= limit
    ensures Flatten(done) + open == sections
    ensures Grouped(AddSections(Packing([], ""), sections, limit), done, open)
  {
    if sections == [] {
      done, open := [], [];
    } else {
      var front, section := sections[..|sections| - 1], sections[|sections| - 1];
      done, open := PackerGroups(front, limit);
      done, open := GroupOneMore(AddSections(Packing([], ""), front, limit), section, limit, done, open);
      assert sections == front + [section];
    }
  }

  /** With all sections non-empty and within the limit, the messages are the smallest cut. */
  lemma MessagesAreACut(content: string, limit: nat) returns (groups: seq<seq<string>>)
    requires forall i :: 0 <= i < |Sections(content)| ==> Sections(content)[i] != "" && |Sections(content)[i]| <= limit
    ensures Joined(Messages(content, limit), groups)
    ensures IsCut(groups, Sections(content), limit)
  {
    var done, open := PackerGroups(Sections(content), limit);
    groups := if open == [] then done else done + [open];
    FlattenAppend(done, open);
    MessagesFit(content, limit);
    AddSectionsWithin(Packing([], ""), Sections(content), limit);
  }

  lemma {:induction false} AddSectionsWithin(p: Packing, sections: seq<string>, limit: nat)
    requires |p.current| <= limit && forall i :: 0 <= i < |p.chunks| ==> |p.chunks[i]| <= limit
    requires forall i :: 0 <= i < |sections| ==> |sections[i]| <= limit
    ensures
      var q := AddSections(p, sections, limit);
      |q.current| <= limit && forall i :: 0 <= i < |q.chunks| ==> |q.chunks[i]| <= limit
  {
    if sections != [] {
      AddSectionsWithin(p, sections[..|sections| - 1], limit);
    }
  }

  // ---------------------------------------------------------------------------------------
  // The lines of a section over the limit
  // ---------------------------------------------------------------------------------------

  function JoinLines(lines: seq<string>): string {
    if lines == [] then ""
    else if |lines| == 1 then lines[0]
    else lines[0] + "\n" + JoinLines(lines[1..])
  }

  lemma JoinLinesGlue(c: char, parts: seq<string>)
    requires parts != []
    ensures JoinLines(Glue(c, parts)) == [c] + JoinLines(parts)
  {
    assert Glue(c, parts)[1..] == parts[1..];
    if |parts| > 1 {
      assert [c] + parts[0] + "\n" + JoinLines(parts[1..]) == [c] + (parts[0] + "\n" + JoinLines(parts[1..]));
    }
  }

  /** Joining the lines gives the text back. */
  lemma {:induction false} JoinOfLines(s: string)
    ensures JoinLines(Lines(s)) == s
  {
    if s != "" {
      JoinOfLines(s[1..]);
      assert s == [s[0]] + s[1..];
      if s[0] == '\n' {
        assert ([""] + Lines(s[1..]))[1..] == Lines(s[1..]);
        assert "" + "\n" + s[1..] == s;
      } else {
        JoinLinesGlue(s[0], Lines(s[1..]));
      }
    }
  }

  lemma {:induction false} LengthOfJoinLines(lines: seq<string>)
    ensures |JoinLines(lines)| == JoinLength(lines, 1)
  {
    if |lines| > 1 {
      LengthOfJoinLines(lines[1..]);
    }
  }

  /** An in-order cut of the lines into newline-joined messages within the limit. */
  ghost predicate IsLineCut(groups: seq<seq<string>>, lines: seq<string>, limit: nat) {
    && Flatten(groups) == lines
    && (forall i :: 0 <= i < |groups| ==> |JoinLines(groups[i])| <= limit)
  }

  /** The messages that the lines of one section make up on their own. */
  function LineMessages(section: string, limit: nat): seq<string> {
    Finish(AddLines(Packing([], ""), Lines(section), limit))
  }

  lemma {:induction false} LinePackerEmitsNeed(p: Packing, front: seq<string>, rest: seq<string>, limit: nat)
    ensures
      var q := AddLines(p, front, limit);
      |Finish(AddLines(p, front + rest, limit))| == |q.chunks| + Need(|q.current|, rest, 1, limit)
    decreases |rest|
  {
    if rest == [] {
      assert front + rest == front;
    } else {
      var next := front + [rest[0]];
      assert next[..|front|] == front && next[|front|] == rest[0];
      assert next + rest[1..] == front + rest;
      LinePackerEmitsNeed(p, next, rest[1..], limit);
    }
  }

  /** No in-order cut of a section's lines into messages within the limit has fewer messages. */
  lemma FewestLineMessages(section: string, limit: nat, groups: seq<seq<string>>)
    requires IsLineCut(groups, Lines(section), limit)
    ensures |LineMessages(section, limit)| <= |groups|
  {
    LinePackerEmitsNeed(Packing([], ""), [], Lines(section), limit);
    assert [] + Lines(section) == Lines(section);
    forall i | 0 <= i < |groups|
      ensures JoinLength(groups[i], 1) <= limit
    {
      LengthOfJoinLines(groups[i]);
    }
    NoCutNeedsFewer(groups, 1, limit);
  }

  /** A post of one section over the limit is sent as the messages of its lines. */
  lemma OneSectionIsItsLines(content: string, limit: nat)
    requires Sections(content) == [content] && |content| > limit
    ensures Messages(content, limit) == LineMessages(content, limit)
  {
    var none := Packing([], "");
    assert AddSections(none, [content], limit) == AddSection(none, content, limit) by {
      assert [content][..0] == [];
    }
  }

  lemma {:induction false} LinesStartFresh(chunks: seq<string>, lines: seq<string>, limit: nat)
    ensures
      var own := AddLines(Packing([], ""), lines, limit);
      AddLines(Packing(chunks, ""), lines, limit) == Packing(chunks + own.chunks, own.current)
  {
    if lines == [] {
      assert chunks + [] == chunks;
    } else {
      LinesStartFresh(chunks, lines[..|lines| - 1], limit);
      var own := AddLines(Packing([], ""), lines[..|lines| - 1], limit);
      assert chunks + own.chunks + [own.current] == chunks + (own.chunks + [own.current]);
    }
  }

  /** A text is in the messages behind the first `k`, or begins the next one. */
  ghost predicate Begins(messages: seq<string>, k: nat, text: string) {
    text == "" || (k < |messages| && text <= messages[k])
  }

  lemma AddLineOnlyAppends(p: Packing, line: string, limit: nat)
    ensures p.chunks <= AddLine(p, line, limit).chunks
    ensures Begins(Finish(AddLine(p, line, limit)), |p.chunks|, p.current)
  {
  }

  lemma {:induction false} AddLinesBegin(p: Packing, lines: seq<string>, limit: nat)
    ensures p.chunks <= Finish(AddLines(p, lines, limit)) && p.chunks <= AddLines(p, lines, limit).chunks
    ensures Begins(Finish(AddLines(p, lines, limit)), |p.chunks|, p.current)
  {
    if lines != [] {
      var q := AddLines(p, lines[..|lines| - 1], limit);
      AddLinesBegin(p, lines[..|lines| - 1], limit);
      AddLineOnlyAppends(q, lines[|lines| - 1], limit);
    }
  }

  lemma AddSectionBegins(p: Packing, section: string, limit: nat)
    ensures p.chunks <= AddSection(p, section, limit).chunks
    ensures Begins(Finish(AddSection(p, section, limit)), |p.chunks|, p.current)
  {
    var q := Flush(p, section, limit);
    if |section| > limit {
      AddLinesBegin(q, Lines(section), limit);
    }
  }

  lemma {:induction false} SectionsBegin(p: Packing, sections: seq<string>, limit: nat)
    ensures p.chunks <= AddSections(p, sections, limit).chunks
    ensures Begins(Finish(AddSections(p, sections, limit)), |p.chunks|, p.current)
  {
    if sections != [] {
      var q := AddSections(p, sections[..|sections| - 1], limit);
      SectionsBegin(p, sections[..|sections| - 1], limit);
      AddSectionBegins(q, sections[|sections| - 1], limit);
    }
  }

  lemma {:induction false} SectionsInTwo(p: Packing, a: seq<string>, b: seq<string>, limit: nat)
    ensures AddSections(p, a + b, limit) == AddSections(AddSections(p, a, limit), b, limit)
    decreases |b|
  {
    if b == [] {
      assert a + b == a;
    } else {
      SectionsInTwo(p, a, b[..|b| - 1], limit);
      assert (a + b)[..|a + b| - 1] == a + b[..|b| - 1] && (a + b)[|a + b| - 1] == b[|b| - 1];
    }
  }

  /** From message `at` on stand these texts, each a message of its own but the last, which begins one. */
  ghost predicate StandAt(messages: seq<string>, at: nat, texts: seq<string>) {
    at + |texts| <= |messages|
    && (forall i :: 0 <= i < |texts| - 1 ==> messages[at + i] == texts[i])
    && (texts != [] ==> texts[|texts| - 1] <= messages[at + |texts| - 1])
  }

  lemma FinishedStand(messages: seq<string>, chunks: seq<string>, own: Packing)
    requires chunks + own.chunks <= messages && Begins(messages, |chunks + own.chunks|, own.current)
    ensures StandAt(messages, |chunks|, Finish(own))
  {
    forall i | 0 <= i < |own.chunks|
      ensures messages[|chunks| + i] == own.chunks[i]
    {
      assert messages[|chunks| + i] == (chunks + own.chunks)[|chunks| + i];
    }
  }

  /** In every post, a section over the limit is sent as the messages of its lines, the last perhaps continued. */
  lemma OverLimitSectionIsItsLines(content: string, limit: nat, k: nat) returns (at: nat)
    requires k < |Sections(content)| && |Sections(content)[k]| > limit
    ensures StandAt(Messages(content, limit), at, LineMessages(Sections(content)[k], limit))
  {
    var sections, none := Sections(content), Packing([], "");
    var section := sections[k];
    var q := Flush(AddSections(none, sections[..k], limit), section, limit);
    at := |q.chunks|;
    assert sections[..k + 1][..k] == sections[..k];
    LinesStartFresh(q.chunks, Lines(section), limit);
    var own := AddLines(none, Lines(section), limit);
    assert AddSections(none, sections[..k + 1], limit) == Packing(q.chunks + own.chunks, own.current);
    SectionsBegin(Packing(q.chunks + own.chunks, own.current), sections[k + 1..], limit);
    SectionsInTwo(none, sections[..k + 1], sections[k + 1..], limit);
    assert sections[..k + 1] + sections[k + 1..] == sections;
    FinishedStand(Messages(content, limit), q.chunks, own);
  }

  // ---------------------------------------------------------------------------------------
  // In every post, a message is closed only where what comes next does not fit behind it
  // ---------------------------------------------------------------------------------------

  ghost predicate NoBlank(s: string) {
    forall i :: 0 <= i < |s| - 1 ==> !(s[i] == '\n' && s[i + 1] == '\n')
  }

  lemma {:induction false} SectionsHaveNoBlank(s: string)
    ensures forall i :: 0 <= i < |Sections(s)| ==> NoBlank(Sections(s)[i])
    ensures Sections(s)[0] != "" ==> s != "" && Sections(s)[0][0] == s[0]
  {
    if s == "" {
    } else if |s| >= 2 && s[0] == '\n' && s[1] == '\n' {
      SectionsHaveNoBlank(s[2..]);
    } else {
      SectionsHaveNoBlank(s[1..]);
    }
  }

  lemma NoLinesNoText(s: string)
    requires NoBlank(s) && Content(s) == []
    ensures |s| <= 1
  {
    if |s| > 1 {
      if s[0] == '\n' {
        assert s == "" + "\n" + s[1..];
        ContentAcrossNewline("", s[1..]);
        StartIsContent(s[1..]);
      } else {
        StartIsContent(s);
      }
    }
  }

  lemma StartIsContent(s: string)
    requires s != "" && s[0] != '\n'
    ensures Content(s) != []
  {
    ContentMember(s, Lines(s)[0]);
    assert Lines(s)[0] == [s[0]] + Lines(s[1..])[0];
  }

  /** The next message begins with a section that does not fit behind this one. */
  ghost predicate SectionTooLong(message: string, next: string, s: string, limit: nat) {
    s != "" && |s| <= limit && |message| + 2 + |s| > limit && s <= next
  }

  /** It begins with a line of a section over the limit: its first one, or one that does not fit behind. */
  ghost predicate LineTooLong(message: string, next: string, s: string, line: string, limit: nat) {
    && |s| > limit && line in Content(s) && line <= next
    && (|message| + 1 + |line| > limit || line == Content(s)[0])
  }

  ghost predicate HadToClose(message: string, next: string, sections: seq<string>, limit: nat) {
    exists s :: s in sections && MustBegin(message, next, s, limit)
  }

  ghost predicate MustBegin(message: string, next: string, s: string, limit: nat) {
    SectionTooLong(message, next, s, limit) || exists line :: LineTooLong(message, next, s, line, limit)
  }

  lemma PrefixOfPrefix(a: string, b: string, c: string)
    requires a <= b && b <= c
    ensures a <= c
  {
  }

  lemma HadToCloseStays(message: string, next: string, more: string, sections: seq<string>, limit: nat)
    requires HadToClose(message, next, sections, limit) && next <= more
    ensures HadToClose(message, more, sections, limit)
  {
    var s :| s in sections && MustBegin(message, next, s, limit);
    if SectionTooLong(message, next, s, limit) {
      PrefixOfPrefix(s, next, more);
    } else {
      var line :| LineTooLong(message, next, s, line, limit);
      PrefixOfPrefix(line, next, more);
      assert LineTooLong(message, more, s, line, limit);
    }
    assert MustBegin(message, more, s, limit);
  }

  ghost predicate AllHadTo(messages: seq<string>, sections: seq<string>, limit: nat) {
    forall i :: 0 <= i < |messages| - 1 ==> HadToClose(messages[i], messages[i + 1], sections, limit)
  }

  lemma AllHadToOneMore(messages: seq<string>, next: string, sections: seq<string>, limit: nat)
    requires AllHadTo(messages, sections, limit)
    requires messages != [] ==> HadToClose(messages[|messages| - 1], next, sections, limit)
    ensures AllHadTo(messages + [next], sections, limit)
  {
    var more := messages + [next];
    forall i | 0 <= i < |more| - 1
      ensures HadToClose(more[i], more[i + 1], sections, limit)
    {
      if i < |messages| - 1 {
        assert HadToClose(messages[i], messages[i + 1], sections, limit);
      }
    }
  }

  /** The message being filled had to be begun; after a closed one with nothing begun, no section fits behind it. */
  ghost predicate WellClosed(p: Packing, sections: seq<string>, limit: nat) {
    && AllHadTo(p.chunks, sections, limit)
    && (p.chunks != [] ==>
          var last := p.chunks[|p.chunks| - 1];
          if p.current != "" then HadToClose(last, p.current, sections, limit) else |last| + 2 >= limit)
  }

  /** The same within a section over the limit, some of whose lines are packed. */
  ghost predicate LinesClosed(p: Packing, sections: seq<string>, seen: seq<string>, limit: nat) {
    && AllHadTo(p.chunks, sections, limit)
    && (p.chunks != [] ==>
          var last := p.chunks[|p.chunks| - 1];
          if p.current != "" then HadToClose(last, p.current, sections, limit)
          else NonEmpty(seen) == [] || |last| >= limit)
  }

  lemma FirstContent(section: string, seen: seq<string>, line: string, rest: seq<string>)
    requires Lines(section) == seen + [line] + rest && line != ""
    ensures line in Content(section) && (NonEmpty(seen) == [] ==> Content(section)[0] == line)
  {
    NonEmptyConcat(seen + [line], rest);
    NonEmptyConcat(seen, [line]);
    assert NonEmpty([line]) == [line];
    assert line in seen + [line] + rest;
    ContentMember(section, line);
  }

  lemma LineIsBegun(message: string, section: string, sections: seq<string>, line: string, limit: nat)
    requires section in sections && |section| > limit && line in Content(section)
    requires |message| + 1 + |line| > limit || line == Content(section)[0]
    ensures HadToClose(message, line, sections, limit)
  {
    assert LineTooLong(message, line, section, line, limit);
    assert MustBegin(message, line, section, limit);
  }

  lemma AddLineCloses(p: Packing, sections: seq<string>, section: string, seen: seq<string>, line: string,
                      rest: seq<string>, limit: nat)
    requires section in sections && |section| > limit && Lines(section) == seen + [line] + rest
    requires LinesClosed(p, sections, seen, limit)
    ensures LinesClosed(AddLine(p, line, limit), sections, seen + [line], limit)
  {
    hide HadToClose, Content, Lines, AllHadTo;
    NonEmptyConcat(seen, [line]);
    if line != "" {
      FirstContent(section, seen, line, rest);
    }
    if p.current != "" && |p.current| + 1 + |line| > limit {
      AllHadToOneMore(p.chunks, p.current, sections, limit);
      if line != "" {
        LineIsBegun(p.current, section, sections, line, limit);
      }
    } else if p.current != "" {
      if p.chunks != [] {
        HadToCloseStays(p.chunks[|p.chunks| - 1], p.current, p.current + "\n" + line, sections, limit);
      }
    } else if line != "" && p.chunks != [] {
      LineIsBegun(p.chunks[|p.chunks| - 1], section, sections, line, limit);
    }
  }

  lemma {:induction false} AddLinesClose(p: Packing, sections: seq<string>, section: string, seen: seq<string>,
                                         rest: seq<string>, limit: nat)
    requires section in sections && |section| > limit && Lines(section) == seen + rest
    requires p.current == "" && AllHadTo(p.chunks, sections, limit)
    ensures LinesClosed(AddLines(p, seen, limit), sections, seen, limit)
    decreases |seen|
  {
    hide Lines;
    if seen != [] {
      var front, line := seen[..|seen| - 1], seen[|seen| - 1];
      assert seen == front + [line];
      assert front + ([line] + rest) == seen + rest;
      AddLinesClose(p, sections, section, front, [line] + rest, limit);
      AddLineCloses(AddLines(p, front, limit), sections, section, front, line, rest, limit);
    }
  }

  lemma AddSectionCloses(p: Packing, sections: seq<string>, section: string, limit: nat)
    requires section in sections && NoBlank(section) && WellClosed(p, sections, limit)
    ensures WellClosed(AddSection(p, section, limit), sections, limit)
  {
    var q := Flush(p, section, limit);
    if q != p {
      AllHadToOneMore(p.chunks, p.current, sections, limit);
    }
    if |section| > limit {
      AddLinesClose(q, sections, section, Lines(section), [], limit);
      assert Lines(section) + [] == Lines(section);
      if Content(section) == [] {
        NoLinesNoText(section);
      }
    } else if q.current == "" {
      if section != "" && q.chunks != [] {
        assert SectionTooLong(q.chunks[|q.chunks| - 1], section, section, limit);
        assert MustBegin(q.chunks[|q.chunks| - 1], section, section, limit);
      }
    } else if q.chunks != [] {
      HadToCloseStays(q.chunks[|q.chunks| - 1], q.current, q.current + "\n\n" + section, sections, limit);
    }
  }

  lemma {:induction false} AddSectionsClose(sections: seq<string>, k: nat, limit: nat)
    requires k <= |sections| && forall i :: 0 <= i < |sections| ==> NoBlank(sections[i])
    ensures WellClosed(AddSections(Packing([], ""), sections[..k], limit), sections, limit)
    decreases k
  {
    if k > 0 {
      AddSectionsClose(sections, k - 1, limit);
      assert sections[..k][..k - 1] == sections[..k - 1];
      AddSectionCloses(AddSections(Packing([], ""), sections[..k - 1], limit), sections, sections[k - 1], limit);
    }
  }

  /**
    Every message but the last was closed because what begins the next one does not fit behind
    it, or starts a section over the limit.
   */
  lemma ClosedOnlyWhenFull(content: string, limit: nat)
    ensures AllHadTo(Messages(content, limit), Sections(content), limit)
  {
    var sections := Sections(content);
    SectionsHaveNoBlank(content);
    AddSectionsClose(sections, |sections|, limit);
    assert sections[..|sections|] == sections;
    var p := AddSections(Packing([], ""), sections, limit);
    if p.current != "" {
      AllHadToOneMore(p.chunks, p.current, sections, limit);
    }
  }
}
