/**
  The frozen baseline of a source census: its text form, the reader of that text, and the check
  that lets a count neither grow nor shrink unseen.
 */
module BaselineRatchet {
  import opened Shared

  datatype Key = Key(file: string, fn: string, family: string)

  datatype Entry = Entry(key: Key, count: int)

  // ---------------------------------------------------------------------------------------
  // Text primitives
  // ---------------------------------------------------------------------------------------

  /** Characters that end a line for Python's splitlines. */
  predicate IsBreak(c: char) {
    c == '\n' || c == '\r' || '\U{000B}' <= c <= '\U{000C}' || '\U{001C}' <= c <= '\U{001E}'
    || c == '\U{0085}' || '\U{2028}' <= c <= '\U{2029}'
  }

  /** Characters that Python's strip removes. */
  predicate IsSpace(c: char) {
    '\t' <= c <= '\r' || '\U{001C}' <= c <= ' ' || c == '\U{0085}' || c == '\U{00A0}' || c == '\U{1680}'
    || '\U{2000}' <= c <= '\U{200A}' || '\U{2028}' <= c <= '\U{2029}' || c == '\U{202F}' || c == '\U{205F}'
    || c == '\U{3000}'
  }

  function TakeLine(s: string): string {
    if s == "" || IsBreak(s[0]) then "" else [s[0]] + TakeLine(s[1..])
  }

  /** What follows the first line break; a carriage return and a newline are one break. */
  function DropLine(s: string): (rest: string)
    ensures s != "" ==> |rest| < |s|
  {
    if s == "" then ""
    else if !IsBreak(s[0]) then DropLine(s[1..])
    else if s[0] == '\r' && |s| > 1 && s[1] == '\n' then s[2..]
    else s[1..]
  }

  function SplitLines(s: string): seq<string>
    decreases |s|
  {
    if s == "" then [] else [TakeLine(s)] + SplitLines(DropLine(s))
  }

  function StripLeft(s: string): string {
    if s != "" && IsSpace(s[0]) then StripLeft(s[1..]) else s
  }

  function StripRight(s: string): string {
    if s != "" && IsSpace(s[|s| - 1]) then StripRight(s[..|s| - 1]) else s
  }

  function Strip(s: string): string {
    StripRight(StripLeft(s))
  }

  function BeforeHash(s: string): string {
    if s == "" || s[0] == '#' then "" else [s[0]] + BeforeHash(s[1..])
  }

  function BeforeTab(s: string): string {
    if s == "" || s[0] == '\t' then "" else [s[0]] + BeforeTab(s[1..])
  }

  /** The text behind the first tab, if there is a tab. */
  function AfterTab(s: string): (rest: Option<string>)
    ensures rest.Some? ==> |rest.value| < |s|
  {
    if s == "" then None else if s[0] == '\t' then Some(s[1..]) else AfterTab(s[1..])
  }

  function Fields(s: string): seq<string>
    decreases |s|
  {
    var rest := AfterTab(s);
    [BeforeTab(s)] + if rest.None? then [] else Fields(rest.value)
  }

  predicate IsDigit(c: char) {
    '0' <= c <= '9'
  }

  /** The zeros of the other decimal digits of Unicode 14; each is followed by its one to nine. */
  const OTHER_ZEROS: string := BASIC_ZEROS + HIGHER_ZEROS

  const BASIC_ZEROS: string :=
    "\U{0660}\U{06F0}\U{07C0}\U{0966}\U{09E6}\U{0A66}\U{0AE6}\U{0B66}\U{0BE6}\U{0C66}\U{0CE6}" +
    "\U{0D66}\U{0DE6}\U{0E50}\U{0ED0}\U{0F20}\U{1040}\U{1090}\U{17E0}\U{1810}\U{1946}\U{19D0}" +
    "\U{1A80}\U{1A90}\U{1B50}\U{1BB0}\U{1C40}\U{1C50}\U{A620}\U{A8D0}\U{A900}\U{A9D0}\U{A9F0}" +
    "\U{AA50}\U{ABF0}\U{FF10}"

  const HIGHER_ZEROS: string :=
    "\U{104A0}\U{10D30}\U{11066}\U{110F0}\U{11136}\U{111D0}\U{112F0}\U{11450}\U{114D0}\U{11650}\U{116C0}" +
    "\U{11730}\U{118E0}\U{11950}\U{11C50}\U{11D50}\U{11DA0}\U{16A60}\U{16AC0}\U{16B50}\U{1D7CE}\U{1D7D8}" +
    "\U{1D7E2}\U{1D7EC}\U{1D7F6}\U{1E140}\U{1E2F0}\U{1E950}\U{1FBF0}"

  function DigitAmong(c: char, zeros: string): Option<nat> {
    if zeros == "" then None
    else if zeros[0] <= c && c as int < zeros[0] as int + 10 then Some(c as int - zeros[0] as int)
    else DigitAmong(c, zeros[1..])
  }

  /** The value of a decimal digit. */
  function Digit(c: char): Option<nat> {
    if IsDigit(c) then Some((c - '0') as nat) else DigitAmong(c, OTHER_ZEROS)
  }

  function Decimal(n: nat): (s: string)
    ensures s != "" && forall i :: 0 <= i < |s| ==> IsDigit(s[i])
  {
    var digit := ['0' + (n % 10) as char];
    if n < 10 then digit else Decimal(n / 10) + digit
  }

  function IntText(n: int): string {
    if n < 0 then "-" + Decimal(-n) else Decimal(n)
  }

  /** The value of a run of decimal digits, single underscores between them; anything else makes the reader raise. */
  function ParseDigits(s: string): Option<nat> {
    if s == "" || Digit(s[|s| - 1]).None? then None
    else
      var front, digit := s[..|s| - 1], Digit(s[|s| - 1]).value;
      if front == "" then Some(digit)
      else
        var value := ParseDigits(if front[|front| - 1] == '_' then front[..|front| - 1] else front);
        if value.None? then None else Some(10 * value.value + digit)
  }

  /** Characters that Python's int skips around a number. */
  predicate IsIntSpace(c: char) {
    IsSpace(c) && !('\U{001C}' <= c <= '\U{001F}')
  }

  function SkipSpaces(s: string): string {
    if s != "" && IsIntSpace(s[0]) then SkipSpaces(s[1..]) else s
  }

  /** Python's int on the last field of a stripped line, which has no space at its right end. */
  function ParseInt(s: string): Option<int> {
    var t := SkipSpaces(s);
    var signed := t != "" && (t[0] == '-' || t[0] == '+');
    var value := ParseDigits(if signed then t[1..] else t);
    if value.None? then None
    else
      var n: int := value.value;
      Some(if signed && t[0] == '-' then -n else n)
  }

  // ---------------------------------------------------------------------------------------
  // Writing and reading a baseline
  // ---------------------------------------------------------------------------------------

  function RowText(e: Entry): string {
    e.key.file + "\t" + e.key.fn + "\t" + e.key.family + "\t" + IntText(e.count)
  }

  function RowTexts(rows: seq<Entry>): seq<string> {
    seq(|rows|, i requires 0 <= i < |rows| => RowText(rows[i]))
  }

  /** The file: comment lines, then one row a line, each ended by a newline. */
  function Render(header: seq<string>, rows: seq<Entry>): string {
    Terminated(header) + Terminated(RowTexts(rows))
  }

  function Terminated(lines: seq<string>): string {
    if lines == [] then "" else lines[0] + "\n" + Terminated(lines[1..])
  }

  datatype Parsed = Blank | Bad | Row(entry: Entry)

  function ParseLine(text: string): Parsed {
    var line := Strip(BeforeHash(text));
    if line == "" then Blank
    else
      var fields := Fields(line);
      if |fields| != 4 then Bad
      else
        var count := ParseInt(fields[3]);
        if count.None? then Bad else Row(Entry(Key(fields[0], fields[1], fields[2]), count.value))
  }

  /** The rows of the lines, in order, or nothing when a line makes the reader raise. */
  function ParseLines(lines: seq<string>): Option<seq<Entry>> {
    if lines == [] then Some([])
    else
      var front := ParseLines(lines[..|lines| - 1]);
      var last := ParseLine(lines[|lines| - 1]);
      if front.None? || last.Bad? then None
      else if last.Blank? then front
      else Some(front.value + [last.entry])
  }

  function MapOf(rows: seq<Entry>): map<Key, int> {
    if rows == [] then map[]
    else
      var last := rows[|rows| - 1];
      MapOf(rows[..|rows| - 1])[last.key := last.count]
  }

  function Read(text: string): Option<map<Key, int>> {
    var rows := ParseLines(SplitLines(text));
    if rows.None? then None else Some(MapOf(rows.value))
  }

  /** Reads the baseline file; without a file the baseline is empty. */
  method LoadBaseline(file: Option<string>) returns (baseline: Option<map<Key, int>>)
    ensures baseline == if file.None? then Some(map[]) else Read(file.value)
  {
    hide ParseLine, SplitLines;
    if file.None? {
      return Some(map[]);
    }
    var lines := SplitLines(file.value);
    var counts: map<Key, int> := map[];
    for i := 0 to |lines|
      invariant ParseLines(lines[..i]).Some? && counts == MapOf(ParseLines(lines[..i]).value)
    {
      assert lines[..i + 1][..i] == lines[..i];
      match ParseLine(lines[i]) {
        case Blank =>
        case Bad =>
          BadLineRaises(lines, i + 1);
          return None;
        case Row(entry) =>
          counts := counts[entry.key := entry.count];
          ghost var rows := ParseLines(lines[..i]).value;
          assert (rows + [entry])[..|rows|] == rows;
      }
    }
    assert lines[..|lines|] == lines;
    baseline := Some(counts);
  }

  lemma {:induction false} BadLineRaises(lines: seq<string>, i: nat)
    requires i <= |lines| && ParseLines(lines[..i]).None?
    ensures ParseLines(lines).None?
    decreases |lines|
  {
    if i < |lines| {
      assert lines[..|lines| - 1][..i] == lines[..i];
      BadLineRaises(lines[..|lines| - 1], i);
    } else {
      assert lines[..i] == lines;
    }
  }

  // ---------------------------------------------------------------------------------------
  // Reading back what was written
  // ---------------------------------------------------------------------------------------

  ghost predicate Free(s: string) {
    forall i :: 0 <= i < |s| ==> s[i] != '\t' && s[i] != '#' && !IsBreak(s[i])
  }

  /** Keys the text form can carry. */
  ghost predicate Clean(k: Key) {
    k.file != "" && !IsSpace(k.file[0]) && Free(k.file) && Free(k.fn) && Free(k.family)
  }

  ghost predicate NoBreak(s: string) {
    forall i :: 0 <= i < |s| ==> !IsBreak(s[i])
  }

  lemma {:induction false} FirstLine(line: string, rest: string)
    requires NoBreak(line)
    ensures TakeLine(line + "\n" + rest) == line && DropLine(line + "\n" + rest) == rest
  {
    var s := line + "\n" + rest;
    if line == "" {
      assert s[1..] == rest;
    } else {
      FirstLine(line[1..], rest);
      assert s[0] == line[0] && s[1..] == line[1..] + "\n" + rest;
      assert line == [line[0]] + line[1..];
    }
  }

  lemma {:induction false} SplitTerminated(lines: seq<string>, rest: string)
    requires forall i :: 0 <= i < |lines| ==> NoBreak(lines[i])
    ensures SplitLines(Terminated(lines) + rest) == lines + SplitLines(rest)
  {
    if lines == [] {
      assert Terminated(lines) + rest == rest;
      assert lines + SplitLines(rest) == SplitLines(rest);
    } else {
      var tail := Terminated(lines[1..]) + rest;
      assert Terminated(lines) + rest == lines[0] + "\n" + tail;
      FirstLine(lines[0], tail);
      SplitFirst(lines[0] + "\n" + tail, lines[0], tail);
      SplitTerminated(lines[1..], rest);
      HeadAndTail(lines, SplitLines(rest));
    }
  }

  lemma HeadAndTail(lines: seq<string>, more: seq<string>)
    requires lines != []
    ensures [lines[0]] + (lines[1..] + more) == lines + more
  {
  }

  lemma SplitFirst(s: string, line: string, tail: string)
    requires s != "" && TakeLine(s) == line && DropLine(s) == tail
    ensures SplitLines(s) == [line] + SplitLines(tail)
  {
  }

  lemma {:induction false} BeforeTabOf(a: string, rest: string)
    requires '\t' !in a
    ensures BeforeTab(a + "\t" + rest) == a && AfterTab(a + "\t" + rest) == Some(rest)
  {
    var s := a + "\t" + rest;
    if a == "" {
      assert s[1..] == rest;
    } else {
      BeforeTabOf(a[1..], rest);
      assert s[0] == a[0] && s[1..] == a[1..] + "\t" + rest;
      assert a == [a[0]] + a[1..];
    }
  }

  lemma {:induction false} NoTab(a: string)
    requires '\t' !in a
    ensures BeforeTab(a) == a && AfterTab(a) == None
  {
    if a != "" {
      NoTab(a[1..]);
      assert a == [a[0]] + a[1..];
    }
  }

  lemma FieldsOfFour(a: string, b: string, c: string, d: string)
    requires '\t' !in a && '\t' !in b && '\t' !in c && '\t' !in d
    ensures Fields(a + "\t" + b + "\t" + c + "\t" + d) == [a, b, c, d]
  {
    var cd := c + "\t" + d;
    var bcd := b + "\t" + cd;
    TabsAssociate(a, b, c, d);
    FirstField(a, bcd);
    FirstField(b, cd);
    FirstField(c, d);
    NoTab(d);
  }

  lemma TabsAssociate(a: string, b: string, c: string, d: string)
    ensures a + "\t" + b + "\t" + c + "\t" + d == a + "\t" + (b + "\t" + (c + "\t" + d))
  {
  }

  lemma FirstField(a: string, rest: string)
    requires '\t' !in a
    ensures Fields(a + "\t" + rest) == [a] + Fields(rest)
  {
    BeforeTabOf(a, rest);
  }

  lemma {:induction false} NoHash(s: string)
    requires '#' !in s
    ensures BeforeHash(s) == s
  {
    if s != "" {
      NoHash(s[1..]);
      assert s == [s[0]] + s[1..];
    }
  }

  lemma {:induction false} ParseOfDecimal(n: nat)
    ensures ParseDigits(Decimal(n)) == Some(n)
  {
    var s := Decimal(n);
    assert (s[|s| - 1] - '0') as nat == n % 10;
    if n >= 10 {
      ParseOfDecimal(n / 10);
      assert s[..|s| - 1] == Decimal(n / 10);
    }
  }

  lemma ParseOfText(n: int)
    ensures ParseInt(IntText(n)) == Some(n)
  {
    ParseOfDecimal(if n < 0 then -n else n);
    assert IntText(n)[0] == '-' || IsDigit(IntText(n)[0]);
    assert SkipSpaces(IntText(n)) == IntText(n);
  }

  ghost predicate Plain(s: string) {
    s != "" && NoBreak(s) && '#' !in s && !IsSpace(s[0])
  }

  lemma PlainAcrossTab(a: string, b: string)
    requires Plain(a) && Free(b)
    ensures Plain(a + "\t" + b)
  {
  }

  lemma NothingToStrip(s: string)
    requires s != "" && !IsSpace(s[0]) && !IsSpace(s[|s| - 1])
    ensures Strip(s) == s
  {
  }

  /** A clean row reads back as itself, and needs only one line. */
  lemma RowReadsBack(e: Entry)
    requires Clean(e.key)
    ensures NoBreak(RowText(e)) && ParseLine(RowText(e)) == Row(e)
  {
    var s := RowText(e);
    var digits := IntText(e.count);
    assert Free(digits);
    PlainAcrossTab(e.key.file, e.key.fn);
    PlainAcrossTab(e.key.file + "\t" + e.key.fn, e.key.family);
    PlainAcrossTab(e.key.file + "\t" + e.key.fn + "\t" + e.key.family, digits);
    assert Plain(s);
    NoHash(s);
    NothingToStrip(s);
    FieldsOfFour(e.key.file, e.key.fn, e.key.family, digits);
    ParseOfText(e.count);
  }

  ghost predicate IsComment(line: string) {
    line != "" && line[0] == '#' && NoBreak(line)
  }

  lemma {:induction false} ParseComments(header: seq<string>)
    requires forall i :: 0 <= i < |header| ==> IsComment(header[i])
    ensures ParseLines(header) == Some([])
  {
    if header != [] {
      ParseComments(header[..|header| - 1]);
      assert BeforeHash(header[|header| - 1]) == "";
    }
  }

  lemma {:induction false} ParseRows(header: seq<string>, rows: seq<Entry>)
    requires forall i :: 0 <= i < |header| ==> IsComment(header[i])
    requires forall i :: 0 <= i < |rows| ==> Clean(rows[i].key)
    ensures ParseLines(header + RowTexts(rows)) == Some(rows)
  {
    hide ParseLine, RowText;
    var lines := header + RowTexts(rows);
    if rows == [] {
      assert lines == header;
      ParseComments(header);
    } else {
      var front, last := rows[..|rows| - 1], rows[|rows| - 1];
      ParseRows(header, front);
      assert lines == header + RowTexts(front) + [RowText(last)];
      RowReadsBack(last);
      ParseOneMore(header + RowTexts(front), RowText(last), front, last);
      assert rows == front + [last];
    }
  }

  lemma ParseOneMore(lines: seq<string>, text: string, rows: seq<Entry>, entry: Entry)
    requires ParseLines(lines) == Some(rows) && ParseLine(text) == Row(entry)
    ensures ParseLines(lines + [text]) == Some(rows + [entry])
  {
    hide ParseLine;
    assert (lines + [text])[..|lines|] == lines;
  }

  lemma ReadOfRender(header: seq<string>, rows: seq<Entry>)
    requires forall i :: 0 <= i < |header| ==> IsComment(header[i])
    requires forall i :: 0 <= i < |rows| ==> Clean(rows[i].key)
    ensures Read(Render(header, rows)) == Some(MapOf(rows))
  {
    var texts := RowTexts(rows);
    forall i | 0 <= i < |texts|
      ensures NoBreak(texts[i])
    {
      RowReadsBack(rows[i]);
    }
    SplitTerminated(texts, "");
    assert Terminated(texts) + "" == Terminated(texts);
    SplitTerminated(header, Terminated(texts));
    assert texts + SplitLines("") == texts;
    ParseRows(header, rows);
  }

  // ---------------------------------------------------------------------------------------
  // Whatever can be read is clean
  // ---------------------------------------------------------------------------------------

  /** Every character of `part` is a character of `whole`. */
  ghost predicate From(part: string, whole: string) {
    forall i :: 0 <= i < |part| ==> part[i] in whole
  }

  lemma {:induction false} TakeLineIsOneLine(s: string)
    ensures NoBreak(TakeLine(s))
  {
    if s != "" && !IsBreak(s[0]) {
      TakeLineIsOneLine(s[1..]);
    }
  }

  lemma {:induction false} LinesAreLines(s: string, i: nat)
    requires i < |SplitLines(s)|
    ensures NoBreak(SplitLines(s)[i])
    decreases |s|
  {
    if i == 0 {
      TakeLineIsOneLine(s);
    } else {
      LinesAreLines(DropLine(s), i - 1);
    }
  }

  lemma {:induction false} BeforeHashIsFree(s: string)
    ensures '#' !in BeforeHash(s) && From(BeforeHash(s), s)
  {
    if s != "" && s[0] != '#' {
      BeforeHashIsFree(s[1..]);
    }
  }

  lemma {:induction false} StripLeftStarts(s: string)
    ensures From(StripLeft(s), s) && (StripLeft(s) != "" ==> !IsSpace(StripLeft(s)[0]))
  {
    if s != "" && IsSpace(s[0]) {
      StripLeftStarts(s[1..]);
    }
  }

  lemma {:induction false} StripRightKeepsStart(s: string)
    ensures From(StripRight(s), s) && (StripRight(s) != "" ==> s != "" && StripRight(s)[0] == s[0])
  {
    if s != "" && IsSpace(s[|s| - 1]) {
      StripRightKeepsStart(s[..|s| - 1]);
    }
  }

  lemma {:induction false} FieldsAreParts(s: string, i: nat)
    requires i < |Fields(s)|
    ensures '\t' !in Fields(s)[i] && From(Fields(s)[i], s)
    decreases |s|
  {
    BeforeTabIsPart(s);
    if i > 0 {
      AfterTabIsPart(s);
      FieldsAreParts(AfterTab(s).value, i - 1);
    }
  }

  lemma {:induction false} BeforeTabIsPart(s: string)
    ensures '\t' !in BeforeTab(s) && From(BeforeTab(s), s)
    ensures s != "" && s[0] != '\t' ==> BeforeTab(s) != "" && BeforeTab(s)[0] == s[0]
  {
    if s != "" && s[0] != '\t' {
      BeforeTabIsPart(s[1..]);
    }
  }

  lemma {:induction false} AfterTabIsPart(s: string)
    ensures AfterTab(s).Some? ==> From(AfterTab(s).value, s)
  {
    if s != "" && s[0] != '\t' {
      AfterTabIsPart(s[1..]);
    }
  }

  lemma ParsedKeyIsClean(text: string)
    requires NoBreak(text) && ParseLine(text).Row?
    ensures Clean(ParseLine(text).entry.key)
  {
    var code := BeforeHash(text);
    var left := StripLeft(code);
    var line := Strip(code);
    BeforeHashIsFree(text);
    StripLeftStarts(code);
    StripRightKeepsStart(left);
    forall i | 0 <= i < 3
      ensures Free(Fields(line)[i])
    {
      FieldsAreParts(line, i);
    }
    BeforeTabIsPart(line);
  }

  lemma {:induction false} ParsedKeysAreClean(lines: seq<string>)
    requires forall i :: 0 <= i < |lines| ==> NoBreak(lines[i])
    requires ParseLines(lines).Some?
    ensures forall i :: 0 <= i < |ParseLines(lines).value| ==> Clean(ParseLines(lines).value[i].key)
  {
    if lines != [] {
      ParsedKeysAreClean(lines[..|lines| - 1]);
      if ParseLine(lines[|lines| - 1]).Row? {
        ParsedKeyIsClean(lines[|lines| - 1]);
      }
    }
  }

  lemma {:induction false} MapOfKeys(rows: seq<Entry>, k: Key)
    requires k in MapOf(rows)
    ensures exists i :: 0 <= i < |rows| && rows[i].key == k
  {
    if k != rows[|rows| - 1].key {
      MapOfKeys(rows[..|rows| - 1], k);
    }
  }

  lemma ReadKeysAreClean(text: string, k: Key)
    requires Read(text).Some? && k in Read(text).value
    ensures Clean(k)
  {
    var lines := SplitLines(text);
    forall i | 0 <= i < |lines|
      ensures NoBreak(lines[i])
    {
      LinesAreLines(text, i);
    }
    ParsedKeysAreClean(lines);
    MapOfKeys(ParseLines(lines).value, k);
  }

  // ---------------------------------------------------------------------------------------
  // The round trip, exactly
  // ---------------------------------------------------------------------------------------

  /** The rows list the counts, in any order; sorting them is one way. */
  ghost predicate Lists(rows: seq<Entry>, counts: map<Key, int>) {
    && (forall i, j :: 0 <= i < j < |rows| ==> rows[i].key != rows[j].key)
    && (forall i :: 0 <= i < |rows| ==> rows[i].key in counts && counts[rows[i].key] == rows[i].count)
    && (forall k :: k in counts ==> exists i :: 0 <= i < |rows| && rows[i].key == k)
  }

  lemma {:induction false} MapOfAt(rows: seq<Entry>, i: nat)
    requires forall a, b :: 0 <= a < b < |rows| ==> rows[a].key != rows[b].key
    requires i < |rows|
    ensures rows[i].key in MapOf(rows) && MapOf(rows)[rows[i].key] == rows[i].count
  {
    if i < |rows| - 1 {
      MapOfAt(rows[..|rows| - 1], i);
    }
  }

  lemma ListedMap(rows: seq<Entry>, counts: map<Key, int>)
    requires Lists(rows, counts)
    ensures MapOf(rows) == counts
  {
    forall k
      ensures k in MapOf(rows) <==> k in counts
      ensures k in counts ==> k in MapOf(rows) && MapOf(rows)[k] == counts[k]
    {
      if k in counts {
        var i :| 0 <= i < |rows| && rows[i].key == k;
        MapOfAt(rows, i);
      } else if k in MapOf(rows) {
        MapOfKeys(rows, k);
      }
    }
  }

  /** Reading back a written baseline gives the same counts if and only if every key is clean. */
  lemma RoundTripExactly(header: seq<string>, rows: seq<Entry>, counts: map<Key, int>)
    requires forall i :: 0 <= i < |header| ==> IsComment(header[i])
    requires Lists(rows, counts)
    ensures Read(Render(header, rows)) == Some(counts) <==> forall k :: k in counts ==> Clean(k)
  {
    if forall k :: k in counts ==> Clean(k) {
      ReadOfRender(header, rows);
      ListedMap(rows, counts);
    } else if Read(Render(header, rows)) == Some(counts) {
      var k :| k in counts && !Clean(k);
      ReadKeysAreClean(Render(header, rows), k);
    }
  }

  // ---------------------------------------------------------------------------------------
  // The check
  // ---------------------------------------------------------------------------------------

  datatype Verdict = Grew | Stale | Passes

  function Count(counts: map<Key, int>, k: Key): int {
    if k in counts then counts[k] else 0
  }

  /** The gate: rows that are new or grew come first, then rows that shrank. */
  function Check(counts: map<Key, int>, baseline: map<Key, int>): Verdict {
    var added := map k | k in counts && k !in baseline :: counts[k];
    var grown := map k | k in counts && k in baseline && counts[k] > baseline[k] :: (baseline[k], counts[k]);
    var shrunk := map k | k in baseline && Count(counts, k) < baseline[k] :: (baseline[k], Count(counts, k));
    if added != map[] || grown != map[] then Grew else if shrunk != map[] then Stale else Passes
  }

  /** Every count is in the baseline under the same number, and what only the baseline lists is not positive. */
  ghost predicate Agree(counts: map<Key, int>, baseline: map<Key, int>) {
    && (forall k :: k in counts ==> k in baseline && counts[k] == baseline[k])
    && (forall k :: k in baseline && k !in counts ==> baseline[k] <= 0)
  }

  ghost predicate Grows(counts: map<Key, int>, baseline: map<Key, int>) {
    exists k :: k in counts && (k !in baseline || counts[k] > baseline[k])
  }

  /** The gate passes exactly on agreement; against a baseline of positive counts that is equality. */
  lemma PassesExactly(counts: map<Key, int>, baseline: map<Key, int>)
    ensures Check(counts, baseline).Grew? <==> Grows(counts, baseline)
    ensures Check(counts, baseline).Passes? <==> Agree(counts, baseline)
    ensures (forall k :: k in baseline ==> baseline[k] > 0) ==> (Agree(counts, baseline) <==> counts == baseline)
  {
    var added := map k | k in counts && k !in baseline :: counts[k];
    var grown := map k | k in counts && k in baseline && counts[k] > baseline[k] :: (baseline[k], counts[k]);
    var shrunk := map k | k in baseline && Count(counts, k) < baseline[k] :: (baseline[k], Count(counts, k));
    if Check(counts, baseline).Passes? {
      forall k
        ensures k in counts ==> k in baseline && counts[k] == baseline[k]
        ensures k in baseline && k !in counts ==> baseline[k] <= 0
      {
        assert k !in added && k !in grown && k !in shrunk;
      }
    }
    if Grows(counts, baseline) {
      var k :| k in counts && (k !in baseline || counts[k] > baseline[k]);
      assert k in added || k in grown;
    } else {
      assert added == map[] && grown == map[];
    }
    if Agree(counts, baseline) {
      assert shrunk == map[];
    }
  }

  /** Writing a baseline and checking at once always passes. */
  lemma WriteThenCheck(header: seq<string>, rows: seq<Entry>, counts: map<Key, int>)
    requires forall i :: 0 <= i < |header| ==> IsComment(header[i])
    requires Lists(rows, counts)
    requires forall k :: k in counts ==> Clean(k) && counts[k] > 0
    ensures Read(Render(header, rows)).Some? && Check(counts, Read(Render(header, rows)).value).Passes?
  {
    RoundTripExactly(header, rows, counts);
    PassesExactly(counts, counts);
  }

  // ---------------------------------------------------------------------------------------
  // What is read from any text
  // ---------------------------------------------------------------------------------------

  /** What is left of a line without its comment and the spaces around it. */
  function Code(line: string): string {
    Strip(BeforeHash(line))
  }

  lemma {:induction false} BeforeHashExactly(s: string)
    ensures '#' !in BeforeHash(s)
    ensures BeforeHash(s) == s || BeforeHash(s) + "#" <= s
  {
    if s != "" && s[0] != '#' {
      BeforeHashExactly(s[1..]);
      assert s == [s[0]] + s[1..];
    }
  }

  ghost predicate AllSpace(s: string) {
    forall i :: 0 <= i < |s| ==> IsSpace(s[i])
  }

  lemma {:induction false} StripLeftExactly(s: string) returns (left: string)
    ensures s == left + StripLeft(s) && AllSpace(left)
    ensures StripLeft(s) != "" ==> !IsSpace(StripLeft(s)[0])
  {
    left := "";
    if s != "" && IsSpace(s[0]) {
      left := StripLeftExactly(s[1..]);
      left := [s[0]] + left;
    }
  }

  lemma {:induction false} StripRightExactly(s: string) returns (right: string)
    ensures s == StripRight(s) + right && AllSpace(right)
    ensures StripRight(s) != "" ==> !IsSpace(StripRight(s)[|StripRight(s)| - 1])
  {
    right := "";
    if s != "" && IsSpace(s[|s| - 1]) {
      right := StripRightExactly(s[..|s| - 1]);
      right := right + [s[|s| - 1]];
    }
  }

  /** Stripping takes away spaces only, and all of them at both ends. */
  lemma StripExactly(s: string) returns (left: string, right: string)
    ensures s == left + Strip(s) + right && AllSpace(left) && AllSpace(right)
    ensures Strip(s) != "" ==> !IsSpace(Strip(s)[0]) && !IsSpace(Strip(s)[|Strip(s)| - 1])
  {
    left := StripLeftExactly(s);
    right := StripRightExactly(StripLeft(s));
    StripRightKeepsStart(StripLeft(s));
  }

  /** A line says an entry: three tab-free texts and a number, parted by tabs. */
  ghost predicate Says(line: string, e: Entry) {
    exists number :: SaysAs(line, e, number)
  }

  ghost predicate SaysAs(line: string, e: Entry, number: string) {
    && '\t' !in e.key.file && '\t' !in e.key.fn && '\t' !in e.key.family && '\t' !in number
    && Code(line) == e.key.file + "\t" + e.key.fn + "\t" + e.key.family + "\t" + number
    && ParseInt(number) == Some(e.count)
  }

  function JoinTabs(fields: seq<string>): string
    requires fields != []
  {
    if |fields| == 1 then fields[0] else fields[0] + "\t" + JoinTabs(fields[1..])
  }

  lemma {:induction false} FieldsAtTab(s: string)
    ensures s == if AfterTab(s).None? then BeforeTab(s) else BeforeTab(s) + "\t" + AfterTab(s).value
  {
    if s != "" && s[0] != '\t' {
      FieldsAtTab(s[1..]);
      assert s == [s[0]] + s[1..];
    }
  }

  lemma {:induction false} JoinOfFields(s: string)
    ensures JoinTabs(Fields(s)) == s
    decreases |s|
  {
    FieldsAtTab(s);
    if AfterTab(s).Some? {
      JoinOfFields(AfterTab(s).value);
      assert Fields(s)[1..] == Fields(AfterTab(s).value);
    }
  }

  lemma JoinOfFour(fields: seq<string>)
    requires |fields| == 4
    ensures JoinTabs(fields) == fields[0] + "\t" + fields[1] + "\t" + fields[2] + "\t" + fields[3]
  {
    var a, b, c, d := fields[0], fields[1], fields[2], fields[3];
    assert fields == [a, b, c, d] && fields[1..] == [b, c, d] && [b, c, d][1..] == [c, d] && [c, d][1..] == [d];
    assert JoinTabs([c, d]) == c + "\t" + d;
    assert JoinTabs([b, c, d]) == b + "\t" + (c + "\t" + d);
    TabsAssociate(fields[0], fields[1], fields[2], fields[3]);
  }

  /** A line is a row exactly when it says one, blank exactly when nothing is left of it, and else it raises. */
  lemma ParseLineExactly(line: string)
    ensures ParseLine(line).Blank? <==> Code(line) == ""
    ensures forall e :: ParseLine(line) == Row(e) <==> Says(line, e)
    ensures ParseLine(line).Bad? <==> Code(line) != "" && forall e :: !Says(line, e)
  {
    forall e
      ensures ParseLine(line) == Row(e) <==> Says(line, e)
    {
      if number :| SaysAs(line, e, number) {
        FieldsOfFour(e.key.file, e.key.fn, e.key.family, number);
      }
      if ParseLine(line) == Row(e) {
        RowIsSaid(line, e);
      }
    }
    if ParseLine(line).Row? {
      assert Says(line, ParseLine(line).entry);
    }
  }

  lemma RowIsSaid(line: string, e: Entry)
    requires ParseLine(line) == Row(e)
    ensures Says(line, e)
  {
    var fields := Fields(Code(line));
    JoinOfFields(Code(line));
    JoinOfFour(fields);
    FieldsAreParts(Code(line), 0);
    FieldsAreParts(Code(line), 1);
    FieldsAreParts(Code(line), 2);
    FieldsAreParts(Code(line), 3);
    assert SaysAs(line, e, fields[3]);
  }

  /** A line that is neither empty nor an entry. */
  ghost predicate Malformed(line: string) {
    Code(line) != "" && forall e :: !Says(line, e)
  }

  /** The last line that says something under this key says this. */
  ghost predicate LastSays(lines: seq<string>, i: nat, e: Entry) {
    && i < |lines| && Says(lines[i], e)
    && forall j, d :: i < j < |lines| && Says(lines[j], d) ==> d.key != e.key
  }

  ghost predicate TellsOf(counts: map<Key, int>, lines: seq<string>, k: Key) {
    if k in counts then exists i :: LastSays(lines, i, Entry(k, counts[k]))
    else forall i, e :: 0 <= i < |lines| && Says(lines[i], e) ==> e.key != k
  }

  lemma LastStays(front: seq<string>, line: string, i: nat, e: Entry)
    requires LastSays(front, i, e) && forall d :: Says(line, d) ==> d.key != e.key
    ensures LastSays(front + [line], i, e)
  {
  }

  lemma TellsOneMore(counts: map<Key, int>, front: seq<string>, line: string, k: Key)
    requires TellsOf(counts, front, k) && !ParseLine(line).Bad?
    ensures
      var parsed := ParseLine(line);
      TellsOf(if parsed.Row? then counts[parsed.entry.key := parsed.entry.count] else counts, front + [line], k)
  {
    ParseLineExactly(line);
    hide ParseLine, Says;
    var lines := front + [line];
    assert forall j :: 0 <= j < |front| ==> lines[j] == front[j];
    var parsed := ParseLine(line);
    if parsed.Row? && parsed.entry.key == k {
      assert Says(line, parsed.entry);
      assert LastSays(lines, |front|, parsed.entry);
    } else if k in counts {
      var i :| LastSays(front, i, Entry(k, counts[k]));
      LastStays(front, line, i, Entry(k, counts[k]));
    }
  }

  ghost predicate AnyMalformed(lines: seq<string>) {
    exists i :: 0 <= i < |lines| && Malformed(lines[i])
  }

  lemma {:induction false} ParseLinesExactly(lines: seq<string>)
    ensures ParseLines(lines).None? <==> AnyMalformed(lines)
    ensures ParseLines(lines).Some? ==> forall k :: TellsOf(MapOf(ParseLines(lines).value), lines, k)
  {
    if lines != [] {
      var front, line := lines[..|lines| - 1], lines[|lines| - 1];
      ParseLinesExactly(front);
      ParseLineExactly(line);
      assert lines == front + [line];
      hide ParseLine, AnyMalformed, Says, TellsOf;
      MalformedOneMore(front, line);
      if ParseLines(lines).Some? {
        var rows := ParseLines(front).value;
        if ParseLine(line).Row? {
          assert (rows + [ParseLine(line).entry])[..|rows|] == rows;
        }
        forall k
          ensures TellsOf(MapOf(ParseLines(lines).value), lines, k)
        {
          TellsOneMore(MapOf(rows), front, line, k);
        }
      }
    }
  }

  lemma MalformedOneMore(front: seq<string>, line: string)
    ensures AnyMalformed(front + [line]) <==> ParseLine(line).Bad? || AnyMalformed(front)
  {
    ParseLineExactly(line);
    assert Malformed(line) <==> ParseLine(line).Bad?;
    hide Malformed, ParseLine;
    assert (front + [line])[|front|] == line;
    assert forall i :: 0 <= i < |front| ==> (front + [line])[i] == front[i];
  }

  /**
    Reading raises exactly when some line is neither empty nor an entry; otherwise a key is read
    exactly when a line says it, with the count of the last such line.
   */
  lemma ReadExactly(text: string)
    ensures Read(text).None? <==> AnyMalformed(SplitLines(text))
    ensures Read(text).Some? ==> forall k :: TellsOf(Read(text).value, SplitLines(text), k)
  {
    ParseLinesExactly(SplitLines(text));
  }

  /** Every kind of line break ends a line, a carriage return and a newline together only one. */
  lemma BreakEndsLine(line: string, mark: string, rest: string)
    requires NoBreak(line)
    requires mark == "\r\n" || (|mark| == 1 && IsBreak(mark[0]) && !(mark == "\r" && rest != "" && rest[0] == '\n'))
    ensures SplitLines(line + mark + rest) == [line] + SplitLines(rest)
  {
    LineAtMark(line, mark, rest);
    SplitFirst(line + mark + rest, line, rest);
  }

  lemma {:induction false} LineAtMark(line: string, mark: string, rest: string)
    requires NoBreak(line)
    requires mark == "\r\n" || (|mark| == 1 && IsBreak(mark[0]) && !(mark == "\r" && rest != "" && rest[0] == '\n'))
    ensures TakeLine(line + mark + rest) == line && DropLine(line + mark + rest) == rest
    decreases |line|
  {
    var s := line + mark + rest;
    if line == "" {
      assert s[|mark|..] == rest;
    } else {
      LineAtMark(line[1..], mark, rest);
      assert s[1..] == line[1..] + mark + rest && s[0] == line[0];
      assert line == [line[0]] + line[1..];
    }
  }

  /** Which ASCII characters end a line, stand around a number, and are stripped. */
  lemma AsciiClasses(c: char)
    requires c < '\U{0080}'
    ensures IsBreak(c) <==> c in "\n\r\U{000B}\U{000C}\U{001C}\U{001D}\U{001E}"
    ensures IsIntSpace(c) <==> c in " \t\n\r\U{000B}\U{000C}"
    ensures IsSpace(c) <==> IsIntSpace(c) || c in "\U{001C}\U{001D}\U{001E}\U{001F}"
  {
  }

  // ---------------------------------------------------------------------------------------
  // What counts as a number
  // ---------------------------------------------------------------------------------------

  /** Decimal digits with single underscores between them. */
  ghost predicate IsNumeral(s: string) {
    && s != "" && Digit(s[0]).Some? && Digit(s[|s| - 1]).Some?
    && (forall i :: 0 <= i < |s| ==> Digit(s[i]).Some? || s[i] == '_')
    && (forall i :: 0 <= i < |s| - 1 ==> !(s[i] == '_' && s[i + 1] == '_'))
  }

  lemma UnderscoreIsNoDigit()
    ensures Digit('_').None?
  {
    ZerosAscend();
    hide OTHER_ZEROS;
    NotAmong('_', OTHER_ZEROS);
  }

  lemma {:induction false} NotAmong(c: char, zeros: string)
    requires Ascending(zeros) && (zeros != "" ==> c < zeros[0])
    ensures DigitAmong(c, zeros).None?
  {
    if zeros != "" {
      assert forall i :: 0 <= i < |zeros[1..]| ==> zeros[1..][i] == zeros[i + 1];
      NotAmong(c, zeros[1..]);
    }
  }

  /** A numeral without its last digit, and without an underscore before that. */
  function Shorter(s: string): string
    requires s != ""
  {
    var front := s[..|s| - 1];
    if front != "" && front[|front| - 1] == '_' then front[..|front| - 1] else front
  }

  lemma NumeralStep(s: string)
    requires |s| > 1 && Digit(s[|s| - 1]).Some?
    ensures IsNumeral(s) <==> IsNumeral(Shorter(s))
  {
    hide Digit;
    UnderscoreIsNoDigit();
    var t := Shorter(s);
    assert forall i :: 0 <= i < |t| ==> s[i] == t[i];
    if IsNumeral(s) {
      if |t| > 0 {
        assert s[|t| - 1] == t[|t| - 1];
      }
    }
    if IsNumeral(t) {
      forall i | 0 <= i < |s| - 1
        ensures !(s[i] == '_' && s[i + 1] == '_')
      {
        if i < |t| - 1 {
          assert !(t[i] == '_' && t[i + 1] == '_');
        }
      }
    }
  }

  lemma {:induction false} NumeralExactly(s: string)
    ensures ParseDigits(s).Some? <==> IsNumeral(s)
    decreases |s|
  {
    hide Digit;
    UnderscoreIsNoDigit();
    if s != "" && Digit(s[|s| - 1]).Some? && |s| > 1 {
      NumeralStep(s);
      NumeralExactly(Shorter(s));
    }
  }

  function Trimmed(s: string): string {
    if s != "" && s[|s| - 1] == '_' then s[..|s| - 1] else s
  }

  lemma ParseDigitMore(front: string, d: char)
    requires front != "" && Digit(d).Some?
    ensures
      var value := ParseDigits(Trimmed(front));
      ParseDigits(front + [d]) == if value.None? then None else Some(10 * value.value + Digit(d).value)
  {
    hide Digit;
    assert (front + [d])[..|front|] == front;
  }

  lemma LastOfConcat(a: string, b: string)
    requires b != ""
    ensures a + b == a + b[..|b| - 1] + [b[|b| - 1]]
  {
  }

  lemma TrimOfConcat(a: string, b: string)
    requires b != ""
    ensures Trimmed(a + b) == a + Trimmed(b)
  {
    assert b[|b| - 1] == '_' ==> (a + b)[..|a + b| - 1] == a + b[..|b| - 1];
  }

  lemma TrimmedBoth(a: string, front: string)
    requires a != "" && a[|a| - 1] != '_'
    ensures Trimmed(a + front) == a + Trimmed(front)
    ensures Trimmed(a + "_" + front) == if front == "" then a else a + "_" + Trimmed(front)
  {
    if front == "" {
      assert a + front == a && a + "_" + front == a + "_" && (a + "_")[..|a|] == a && a + Trimmed(front) == a;
    } else {
      TrimOfConcat(a, front);
      TrimOfConcat(a + "_", front);
    }
  }

  lemma NumeralParts(s: string)
    requires IsNumeral(s)
    ensures s != "" && Digit(s[|s| - 1]).Some? && s[|s| - 1] != '_'
    ensures |s| > 1 ==> IsNumeral(Trimmed(s[..|s| - 1]))
    ensures |s| == 1 ==> s[..|s| - 1] == ""
  {
    UnderscoreIsNoDigit();
    if |s| > 1 {
      NumeralStep(s);
    }
  }

  /** An underscore between digits changes nothing. */
  lemma {:induction false} UnderscoreIsIgnored(a: string, b: string)
    requires IsNumeral(a) && IsNumeral(b)
    ensures ParseDigits(a + "_" + b) == ParseDigits(a + b)
    decreases |b|
  {
    NumeralParts(a);
    NumeralParts(b);
    hide Digit, ParseDigits, IsNumeral, Trimmed;
    var front, d := b[..|b| - 1], b[|b| - 1];
    LastOfConcat(a + "_", b);
    LastOfConcat(a, b);
    ParseDigitMore(a + "_" + front, d);
    ParseDigitMore(a + front, d);
    TrimmedBoth(a, front);
    if |b| > 1 {
      TrimmedIsShorter(front);
      UnderscoreIsIgnored(a, Trimmed(front));
    } else {
      TrimmedIsShorter(front);
      assert a + Trimmed(front) == a;
    }
  }

  lemma TrimmedIsShorter(s: string)
    ensures |Trimmed(s)| <= |s| && (s == "" ==> Trimmed(s) == "")
  {
  }

  lemma {:induction false} SpacesAreSkipped(spaces: string, s: string)
    requires forall i :: 0 <= i < |spaces| ==> IsIntSpace(spaces[i])
    requires s != "" && !IsIntSpace(s[0])
    ensures SkipSpaces(spaces + s) == s
  {
    if spaces == "" {
      assert spaces + s == s;
    } else {
      SpacesAreSkipped(spaces[1..], s);
      assert (spaces + s)[1..] == spaces[1..] + s;
    }
  }

  lemma SpacesDoNotCount(spaces: string, s: string)
    requires forall i :: 0 <= i < |spaces| ==> IsIntSpace(spaces[i])
    requires s != "" && !IsIntSpace(s[0])
    ensures ParseInt(spaces + s) == ParseInt(s)
  {
    SpacesAreSkipped(spaces, s);
    SpacesAreSkipped("", s);
    assert "" + s == s;
  }

  /** A numeral may stand behind spaces and one sign. */
  lemma SignedNumeral(spaces: string, numeral: string)
    requires forall i :: 0 <= i < |spaces| ==> IsIntSpace(spaces[i])
    requires IsNumeral(numeral) && !IsIntSpace(numeral[0]) && numeral[0] != '+' && numeral[0] != '-'
    ensures
      var value := ParseDigits(numeral);
      && value.Some? && ParseInt(spaces + numeral) == Some(value.value)
      && ParseInt(spaces + ("+" + numeral)) == Some(value.value)
      && ParseInt(spaces + ("-" + numeral)) == Some(-(value.value as int))
  {
    NumeralExactly(numeral);
    assert numeral != "";
    hide IsNumeral, ParseDigits, IsIntSpace, ParseInt;
    SignsAreNoSpaces();
    SpacesDoNotCount(spaces, numeral);
    SpacesDoNotCount(spaces, "+" + numeral);
    SpacesDoNotCount(spaces, "-" + numeral);
    SignCounts(numeral);
  }

  lemma SignCounts(numeral: string)
    requires numeral != "" && !IsIntSpace(numeral[0]) && numeral[0] != '+' && numeral[0] != '-'
    ensures ParseInt(numeral) == ParseDigits(numeral) && ParseInt("+" + numeral) == ParseDigits(numeral)
    ensures ParseInt("-" + numeral) ==
            if ParseDigits(numeral).None? then None else Some(-(ParseDigits(numeral).value as int))
  {
    hide ParseDigits, IsIntSpace;
    SignsAreNoSpaces();
    assert ("+" + numeral)[1..] == numeral && ("-" + numeral)[1..] == numeral;
  }

  lemma SignsAreNoSpaces()
    ensures !IsIntSpace('+') && !IsIntSpace('-')
  {
  }

  ghost predicate Ascending(zeros: string) {
    forall i :: 0 <= i < |zeros| - 1 ==> zeros[i] as int + 10 <= zeros[i + 1] as int
  }

  lemma BasicZerosAscend()
    ensures Ascending(BASIC_ZEROS) && BASIC_ZEROS[0] > '_' && BASIC_ZEROS[|BASIC_ZEROS| - 1] < '\U{FFF0}'
  {
  }

  lemma HigherZerosAscend()
    ensures Ascending(HIGHER_ZEROS) && HIGHER_ZEROS[0] > '\U{FFFF}'
  {
  }

  lemma ZerosAscend()
    ensures Ascending(OTHER_ZEROS) && OTHER_ZEROS[0] > '_'
  {
    BasicZerosAscend();
    HigherZerosAscend();
    hide BASIC_ZEROS, HIGHER_ZEROS;
    assert OTHER_ZEROS == BASIC_ZEROS + HIGHER_ZEROS;
  }

  lemma {:induction false} DigitOfBlock(zeros: string, k: nat, c: char)
    requires Ascending(zeros) && k < |zeros| && zeros[k] <= c && c as int < zeros[k] as int + 10
    ensures zeros[0] <= zeros[k] && DigitAmong(c, zeros) == Some(c as int - zeros[k] as int)
  {
    if k > 0 {
      assert forall i :: 0 <= i < |zeros[1..]| ==> zeros[1..][i] == zeros[i + 1];
      DigitOfBlock(zeros[1..], k - 1, c);
      assert zeros[0] as int + 10 <= zeros[1] as int;
    }
  }

  /** The ten characters from a zero on are the digits zero to nine. */
  lemma OtherDigits(k: nat, c: char)
    requires k < |OTHER_ZEROS| && OTHER_ZEROS[k] <= c && c as int < OTHER_ZEROS[k] as int + 10
    ensures Digit(c) == Some(c as int - OTHER_ZEROS[k] as int)
  {
    ZerosAscend();
    DigitOfBlock(OTHER_ZEROS, k, c);
  }
}
