/** generate_docx.py: the line loop of the Markdown converter, whose cursor
    steps back once, against a grammar of blocks. */
module DocConverter {
  import opened Prelude

  // ----- text

  /** ASCII white space. */
  predicate IsSpace(c: char) {
    c == ' ' || ('\t' <= c <= '\r')
  }

  function StripLeft(s: string): string {
    if s != "" && IsSpace(s[0]) then StripLeft(s[1..]) else s
  }

  function StripRight(s: string): string {
    if s != "" && IsSpace(s[|s| - 1]) then StripRight(s[..|s| - 1]) else s
  }

  function Strip(s: string): string {
    StripRight(StripLeft(s))
  }

  function Drop(s: string, n: nat): string {
    if n <= |s| then s[n..] else ""
  }

  function SplitOn(s: string, c: char): (parts: seq<string>)
    ensures parts != []
  {
    if s == "" then [""]
    else
      var rest := SplitOn(s[1..], c);
      if s[0] == c then [""] + rest else [[s[0]] + rest[0]] + rest[1..]
  }

  function Join(parts: seq<string>, c: char): string
    requires parts != []
  {
    if |parts| == 1 then parts[0] else parts[0] + [c] + Join(parts[1..], c)
  }

  /** The parts hold no separator, and joining them gives the text back. */
  lemma {:induction false} SplitJoins(s: string, c: char)
    ensures Join(SplitOn(s, c), c) == s
    ensures forall i :: 0 <= i < |SplitOn(s, c)| ==> c !in SplitOn(s, c)[i]
  {
    if s != "" {
      SplitJoins(s[1..], c);
      var rest := SplitOn(s[1..], c);
      assert s == [s[0]] + s[1..];
      if s[0] == c {
        assert ([""] + rest)[1..] == rest;
      } else {
        assert ([[s[0]] + rest[0]] + rest[1..])[1..] == rest[1..];
      }
    }
  }

  function StripAll(ss: seq<string>): seq<string> {
    seq(|ss|, i requires 0 <= i < |ss| => Strip(ss[i]))
  }

  /** The cells between the first and the last bar. */
  function Cells(row: string): seq<string> {
    var parts := SplitOn(row, '|');
    if |parts| <= 2 then [] else StripAll(parts[1..|parts| - 1])
  }

  // ----- the grammar

  datatype Kind = Skipped | Heading(level: nat) | Table | Bullet | Fence | Paragraph | Blank

  predicate IsRow(line: string) {
    StartsWith(Strip(line), "|")
  }

  predicate IsFence(line: string) {
    StartsWith(Strip(line), "```")
  }

  function KindOf(line: string): Kind {
    var s := Strip(line);
    if StartsWith(line, "# ContractRiskEdge") || s == "---" || StartsWith(s, "## Fortune 500") then Skipped
    else if StartsWith(line, "## ") then Heading(2)
    else if StartsWith(line, "### ") then Heading(3)
    else if StartsWith(line, "#### ") then Heading(4)
    else if StartsWith(s, "|") && s[|s| - 1] == '|' then Table
    else if StartsWith(s, "- ") || StartsWith(s, "+ ") then Bullet
    else if IsFence(line) then Fence
    else if s != "" then Paragraph
    else Blank
  }

  datatype Block = Block(kind: Kind, lines: seq<string>)

  predicate Full(bs: seq<Block>) {
    forall k :: 0 <= k < |bs| ==> bs[k].lines != []
  }

  function LeadingRows(lines: seq<string>): (n: nat)
    ensures n <= |lines|
    ensures forall i :: 0 <= i < n ==> IsRow(lines[i])
    ensures n < |lines| ==> !IsRow(lines[n])
  {
    if lines != [] && IsRow(lines[0]) then 1 + LeadingRows(lines[1..]) else 0
  }

  /** A table opens with a line that starts and ends with a bar and takes the
      whole run of lines that start with one; anything else is one line. */
  function Blocks(lines: seq<string>): (bs: seq<Block>)
    ensures Full(bs)
    decreases |lines|
  {
    if lines == [] then []
    else if KindOf(lines[0]) == Table then
      var n := 1 + LeadingRows(lines[1..]);
      [Block(Table, lines[..n])] + Blocks(lines[n..])
    else [Block(KindOf(lines[0]), [lines[0]])] + Blocks(lines[1..])
  }

  function Flatten(bs: seq<Block>): seq<string> {
    if bs == [] then [] else bs[0].lines + Flatten(bs[1..])
  }

  predicate WellShaped(b: Block) {
    && b.lines != [] && KindOf(b.lines[0]) == b.kind
    && (b.kind != Table ==> |b.lines| == 1)
    && forall i :: 1 <= i < |b.lines| ==> IsRow(b.lines[i])
  }

  /** Blocks of the right shape, in which no table is followed by another row. */
  predicate Maximal(bs: seq<Block>) {
    bs == [] || (WellShaped(bs[0]) && EndsWell(bs[0], bs[1..]) && Maximal(bs[1..]))
  }

  predicate EndsWell(b: Block, rest: seq<Block>) {
    rest != [] && b.kind == Table ==> WellShaped(rest[0]) && !IsRow(rest[0].lines[0])
  }

  lemma TableStartsWithRow(line: string)
    requires KindOf(line) == Table
    ensures IsRow(line)
  {
  }

  lemma {:induction false} LeadingRowsIs(lines: seq<string>, m: nat)
    requires m <= |lines| && forall i :: 0 <= i < m ==> IsRow(lines[i])
    requires m < |lines| ==> !IsRow(lines[m])
    ensures LeadingRows(lines) == m
  {
    hide IsRow;
    if m > 0 {
      LeadingRowsIs(lines[1..], m - 1);
    }
  }

  function FirstLength(lines: seq<string>): (n: nat)
    requires lines != []
    ensures 1 <= n <= |lines|
  {
    if KindOf(lines[0]) == Table then 1 + LeadingRows(lines[1..]) else 1
  }

  function FirstBlock(lines: seq<string>): Block
    requires lines != []
  {
    Block(KindOf(lines[0]), lines[..FirstLength(lines)])
  }

  lemma BlocksStep(lines: seq<string>)
    requires lines != []
    ensures Blocks(lines) == [FirstBlock(lines)] + Blocks(lines[FirstLength(lines)..])
  {
    hide KindOf, LeadingRows;
    assert lines[..1] == [lines[0]];
  }

  lemma FirstIsWellShaped(lines: seq<string>)
    requires lines != []
    ensures WellShaped(FirstBlock(lines))
    ensures FirstBlock(lines).kind == Table && FirstLength(lines) < |lines| ==>
      !IsRow(lines[FirstLength(lines)])
  {
    hide KindOf, IsRow;
    var b := FirstBlock(lines);
    forall i | 1 <= i < |b.lines|
      ensures IsRow(b.lines[i])
    {
      assert b.lines[i] == lines[1..][i - 1];
    }
  }

  /** The blocks tile the lines in order, and every table is as long as it can be. */
  lemma {:induction false} BlocksTile(lines: seq<string>)
    ensures Flatten(Blocks(lines)) == lines && Maximal(Blocks(lines))
    decreases |lines|
  {
    hide KindOf, IsRow, WellShaped, FirstBlock, FirstLength;
    if lines != [] {
      var n, b := FirstLength(lines), FirstBlock(lines);
      var after := lines[n..];
      BlocksStep(lines);
      BlocksTile(after);
      FirstTakes(lines);
      Joined(b, Blocks(after));
      FirstIsWellShaped(lines);
      if after != [] {
        BlocksStep(after);
        FirstIsWellShaped(after);
        FirstTakes(after);
        assert after[0] == lines[n];
      }
    }
  }

  lemma FirstTakes(lines: seq<string>)
    requires lines != []
    ensures FirstBlock(lines).lines == lines[..FirstLength(lines)]
    ensures FirstBlock(lines).lines + lines[FirstLength(lines)..] == lines
    ensures FirstBlock(lines).lines != [] && FirstBlock(lines).lines[0] == lines[0]
  {
    hide KindOf;
  }

  lemma Joined(b: Block, rest: seq<Block>)
    ensures Flatten([b] + rest) == b.lines + Flatten(rest)
    ensures Maximal([b] + rest) == (WellShaped(b) && EndsWell(b, rest) && Maximal(rest))
  {
    hide WellShaped, EndsWell;
    assert ([b] + rest)[1..] == rest;
  }

  /** No other tiling of that shape exists: the grammar is unambiguous. */
  lemma {:induction false} TilingIsUnique(bs: seq<Block>)
    requires Maximal(bs)
    ensures Blocks(Flatten(bs)) == bs
    decreases |bs|
  {
    hide WellShaped, EndsWell, FirstBlock, FirstLength;
    if bs != [] {
      var b, rest := bs[0], bs[1..];
      TilingIsUnique(rest);
      FirstOfFlat(b, rest);
      BlocksStep(Flatten(bs));
      assert bs == [b] + rest;
    }
  }

  lemma FirstOfFlat(b: Block, rest: seq<Block>)
    requires WellShaped(b) && EndsWell(b, rest)
    ensures var lines := b.lines + Flatten(rest);
      lines != [] && FirstBlock(lines) == b && lines[FirstLength(lines)..] == Flatten(rest)
  {
    hide KindOf, IsRow;
    var lines, n := b.lines + Flatten(rest), |b.lines|;
    assert lines[0] == b.lines[0];
    assert lines[..n] == b.lines && lines[n..] == Flatten(rest);
    if b.kind == Table {
      forall i | 0 <= i < n - 1
        ensures IsRow(lines[1..][i])
      {
        assert lines[1..][i] == b.lines[i + 1];
      }
      if n < |lines| {
        assert lines[1..][n - 1] == Flatten(rest)[0];
        AfterTable(b, rest);
      }
      LeadingRowsIs(lines[1..], n - 1);
    }
  }

  lemma AfterTable(b: Block, rest: seq<Block>)
    requires b.kind == Table && EndsWell(b, rest) && Flatten(rest) != []
    ensures !IsRow(Flatten(rest)[0])
  {
    hide KindOf, IsRow;
  }

  // ----- what is written

  datatype Item =
    | HeadingItem(level: nat, text: string)
    | TableItem(headers: seq<string>, rows: seq<seq<string>>)
    | BulletItem(nested: bool, text: string)
    | ParagraphItem(text: string)

  /** One table row, cut or padded to the number of headers. */
  function FitRow(cells: seq<string>, width: nat): (row: seq<string>)
    ensures |row| == width
  {
    seq(width, i requires 0 <= i < width => if i < |cells| then cells[i] else "")
  }

  function DataRows(rows: seq<string>, width: nat): (data: seq<seq<string>>)
    ensures forall r :: 0 <= r < |data| ==> |data[r]| == width
  {
    if rows == [] then []
    else
      var cells := Cells(rows[|rows| - 1]);
      DataRows(rows[..|rows| - 1], width) + if cells != [] then [FitRow(cells, width)] else []
  }

  /** The second line of a table is taken for the separator. */
  function TableItems(rows: seq<string>): seq<Item> {
    if |rows| < 2 then []
    else
      var headers := Cells(rows[0]);
      var data := DataRows(rows[2..], |headers|);
      if headers == [] || data == [] then [] else [TableItem(headers, data), ParagraphItem("")]
  }

  function ItemsOf(b: Block): seq<Item>
    requires b.lines != []
  {
    var line := b.lines[0];
    match b.kind
    case Heading(level) => [HeadingItem(level, Strip(Drop(line, level + 1)))]
    case Table => TableItems(StripAll(b.lines))
    case Bullet =>
      var text := Strip(Drop(Strip(line), 2));
      if text == "" then [] else [BulletItem(|line| - |StripLeft(line)| > 2, text)]
    case Paragraph => [ParagraphItem(Strip(line))]
    case _ => []
  }

  function Written(bs: seq<Block>): seq<Item>
    requires Full(bs)
  {
    if bs == [] then [] else Written(bs[..|bs| - 1]) + ItemsOf(bs[|bs| - 1])
  }

  lemma {:induction false} StripRightEnds(s: string)
    ensures StripRight(s) != "" ==> !IsSpace(StripRight(s)[|StripRight(s)| - 1])
  {
    if s != "" && IsSpace(s[|s| - 1]) {
      StripRightEnds(s[..|s| - 1]);
    }
  }

  lemma {:induction false} StripKeeps(s: string)
    requires s != "" && !IsSpace(s[|s| - 1])
    ensures Strip(s) != ""
  {
    StripLeftEnds(s);
  }

  lemma {:induction false} StripLeftEnds(s: string)
    requires s != "" && !IsSpace(s[|s| - 1])
    ensures StripLeft(s) != "" && StripLeft(s)[|StripLeft(s)| - 1] == s[|s| - 1]
  {
    if IsSpace(s[0]) {
      StripLeftEnds(s[1..]);
    }
  }

  /** A bullet always has a text: stripping first leaves nothing blank behind
      the mark. */
  lemma BulletsAreNeverEmpty(line: string)
    requires KindOf(line) == Bullet
    ensures |ItemsOf(Block(Bullet, [line]))| == 1
  {
    var s := Strip(line);
    StripRightEnds(StripLeft(line));
    assert s[1] == ' ' by {
      assert s[..2][1] == ' ';
    }
    assert !IsSpace(s[|s| - 1]);
    assert |s| > 2;
    assert s[2..][|s| - 3] == s[|s| - 1];
    StripKeeps(s[2..]);
  }

  // ----- what each kind of line stands for

  predicate AllSpace(s: string) {
    forall i :: 0 <= i < |s| ==> IsSpace(s[i])
  }

  lemma {:induction false} StripLeftSkips(a: string, m: string)
    requires AllSpace(a) && (m != "" ==> !IsSpace(m[0]))
    ensures StripLeft(a + m) == m
  {
    if a == "" {
      assert a + m == m;
    } else {
      assert (a + m)[1..] == a[1..] + m;
      StripLeftSkips(a[1..], m);
    }
  }

  lemma {:induction false} StripRightSkips(m: string, b: string)
    requires AllSpace(b) && (m != "" ==> !IsSpace(m[|m| - 1]))
    ensures StripRight(m + b) == m
  {
    if b == "" {
      assert m + b == m;
    } else {
      assert (m + b)[..|m + b| - 1] == m + b[..|b| - 1];
      StripRightSkips(m, b[..|b| - 1]);
    }
  }

  /** Stripping takes the white space at both ends, and nothing else. */
  lemma StripIs(a: string, m: string, b: string)
    requires AllSpace(a) && AllSpace(b) && m != "" && !IsSpace(m[0]) && !IsSpace(m[|m| - 1])
    ensures Strip(a + m + b) == m
  {
    assert a + m + b == a + (m + b);
    assert (m + b)[0] == m[0];
    StripLeftSkips(a, m + b);
    StripRightSkips(m, b);
  }

  lemma StripOfSpace(s: string)
    requires AllSpace(s)
    ensures Strip(s) == ""
  {
    assert s + "" == s;
    StripLeftSkips(s, "");
  }

  /** Any text is white space, a part that begins and ends with something else,
      and white space. */
  lemma Parts(s: string) returns (a: string, m: string, b: string)
    ensures s == a + m + b && AllSpace(a) && AllSpace(b) && m == Strip(s)
    ensures m != "" ==> !IsSpace(m[0]) && !IsSpace(m[|m| - 1])
  {
    var i := 0;
    while i < |s| && IsSpace(s[i])
      invariant i <= |s| && AllSpace(s[..i])
    {
      i := i + 1;
    }
    var j := |s|;
    while j > i && IsSpace(s[j - 1])
      invariant i <= j <= |s| && AllSpace(s[j..])
    {
      j := j - 1;
    }
    a, m, b := s[..i], s[i..j], s[j..];
    assert s[i..] == m + b && s == a + s[i..];
    assert a + (m + b) == a + m + b;
    if m != "" {
      StripIs(a, m, b);
    } else {
      StripOfSpace(s);
    }
  }

  function ItemsAt(line: string): seq<Item> {
    ItemsOf(Block(KindOf(line), [line]))
  }

  lemma PrefixAt(s: string, prefix: string, i: nat)
    requires i < |prefix|
    ensures StartsWith(s, prefix) ==> i < |s| && s[i] == prefix[i]
  {
    assert StartsWith(s, prefix) ==> s[..|prefix|][i] == s[i];
  }

  lemma PrefixOf(prefix: string, text: string)
    ensures StartsWith(prefix + text, prefix) && (prefix + text)[|prefix|..] == text
  {
  }

  lemma {:induction false} StripRightIsPrefix(s: string)
    ensures StripRight(s) <= s
    ensures s != "" && !IsSpace(s[0]) ==> StripRight(s) != ""
  {
    if s != "" && IsSpace(s[|s| - 1]) {
      StripRightIsPrefix(s[..|s| - 1]);
    }
  }

  /** A line that does not begin with white space strips to its own beginning. */
  lemma StripIsPrefix(line: string)
    requires line != "" && !IsSpace(line[0])
    ensures Strip(line) != "" && Strip(line) <= line
  {
    StripRightIsPrefix(line);
  }

  /** What a line with hash marks in front is not. */
  lemma HashFirst(line: string)
    requires |line| > 2 && line[0] == '#' == line[1]
    ensures Strip(line) != "---" && !StartsWith(line, "# ContractRiskEdge")
    ensures line[2] == '#' ==> !StartsWith(Strip(line), "## Fortune 500") && !StartsWith(line, "## ")
    ensures |line| > 3 && line[3] == '#' ==> !StartsWith(line, "### ")
  {
    StripIsPrefix(line);
    PrefixAt(line, "# ContractRiskEdge", 1);
    PrefixAt(Strip(line), "## Fortune 500", 2);
    PrefixAt(line, "## ", 2);
    PrefixAt(line, "### ", 3);
  }

  /** Headings of three levels; two titles are left out. */
  lemma HeadingsAre(text: string)
    ensures ItemsAt("## " + text) ==
      if StartsWith(Strip("## " + text), "## Fortune 500") then [] else [HeadingItem(2, Strip(text))]
    ensures ItemsAt("### " + text) == [HeadingItem(3, Strip(text))]
    ensures ItemsAt("#### " + text) == [HeadingItem(4, Strip(text))]
    ensures ItemsAt("# ContractRiskEdge" + text) == []
  {
    HashFirst("## " + text);
    HashFirst("### " + text);
    HashFirst("#### " + text);
    PrefixOf("## ", text);
    PrefixOf("### ", text);
    PrefixOf("#### ", text);
    PrefixOf("# ContractRiskEdge", text);
    hide StartsWith, Strip;
  }

  /** A line without a hash mark in front is no heading and no title. */
  lemma NoHash(line: string)
    requires line != "" && line[0] != '#' && Strip(line) != "" && Strip(line)[0] != '#'
    ensures !StartsWith(line, "# ContractRiskEdge") && !StartsWith(Strip(line), "## Fortune 500")
    ensures !StartsWith(line, "## ") && !StartsWith(line, "### ") && !StartsWith(line, "#### ")
  {
    PrefixAt(line, "# ContractRiskEdge", 0);
    PrefixAt(line, "## ", 0);
    PrefixAt(line, "### ", 0);
    PrefixAt(line, "#### ", 0);
    PrefixAt(Strip(line), "## Fortune 500", 0);
  }

  /** A line without a hash mark, a bar or a fence in front. */
  lemma PlainKind(line: string)
    requires line != "" && line[0] != '#' && Strip(line) != "" && Strip(line) != "---"
    requires Strip(line)[0] != '#' && Strip(line)[0] != '|' && Strip(line)[0] != '`'
    ensures KindOf(line) ==
      if StartsWith(Strip(line), "- ") || StartsWith(Strip(line), "+ ") then Bullet else Paragraph
  {
    NoHash(line);
    PrefixAt(Strip(line), "|", 0);
    PrefixAt(Strip(line), "```", 0);
    hide StartsWith, Strip;
  }

  /** Bullets by either mark, nested when set in by more than two. */
  lemma BulletsAre(indent: string, text: string)
    requires AllSpace(indent) && Strip(text) != ""
    ensures ItemsAt(indent + "- " + text) == [BulletItem(|indent| > 2, Strip(text))]
    ensures ItemsAt(indent + "+ " + text) == [BulletItem(|indent| > 2, Strip(text))]
  {
    OneBullet(indent, "- ", text);
    OneBullet(indent, "+ ", text);
  }

  lemma OneBullet(indent: string, mark: string, text: string)
    requires AllSpace(indent) && Strip(text) != "" && (mark == "- " || mark == "+ ")
    ensures ItemsAt(indent + mark + text) == [BulletItem(|indent| > 2, Strip(text))]
  {
    var line := indent + mark + text;
    var a, m, b := Parts(text);
    var body := mark + a + m;
    BulletBody(indent, mark, a, m, b);
    assert line == indent + body + b;
    PrefixOf(mark, a + m);
    assert mark + (a + m) == body;
    FirstIs(indent, mark[0], line);
    hide Strip, StripLeft, AllSpace, KindOf;
    assert body != "---" by {
      assert body[1] == ' ';
    }
    PlainKind(line);
    assert Drop(body, 2) == a + m;
  }

  lemma BulletBody(indent: string, mark: string, a: string, m: string, b: string)
    requires AllSpace(indent) && AllSpace(a) && AllSpace(b) && m != "" && !IsSpace(m[0]) && !IsSpace(m[|m| - 1])
    requires mark == "- " || mark == "+ "
    ensures Strip(indent + (mark + a + m) + b) == mark + a + m
    ensures |StripLeft(indent + (mark + a + m) + b)| == |mark + a + m + b|
    ensures Strip(a + m) == m
  {
    var body := mark + a + m;
    assert body[|body| - 1] == m[|m| - 1] && body[0] == mark[0];
    StripIs(indent, body, b);
    assert indent + body + b == indent + (body + b) && (body + b)[0] == mark[0];
    StripLeftSkips(indent, body + b);
    assert a + m + "" == a + m;
    StripIs(a, m, "");
  }

  /** The first character of a line set in by white space. */
  lemma FirstIs(indent: string, c: char, line: string)
    requires |line| > |indent| && line[..|indent|] == indent && line[|indent|] == c
    requires AllSpace(indent) && c != '#'
    ensures line[0] != '#'
  {
    assert indent != "" ==> line[0] == indent[0];
  }

  /** Blank lines and rules write nothing. */
  lemma NothingWritten(a: string, b: string)
    requires AllSpace(a) && AllSpace(b)
    ensures ItemsAt(a) == [] && ItemsAt(a + "---" + b) == []
  {
    StripOfSpace(a);
    StripIs(a, "---", b);
  }

  /** A fence writes nothing. */
  lemma FencesAre(a: string, rest: string)
    requires AllSpace(a) && (rest != "" ==> !IsSpace(rest[|rest| - 1]))
    ensures ItemsAt(a + "```" + rest) == []
  {
    var line, m := a + "```" + rest, "```" + rest;
    assert line == a + m + "" && m[0] == '`' && m[2] == '`';
    StripIs(a, m, "");
    assert line[..|a|] == a && line[|a|] == '`';
    FirstIs(a, '`', line);
    NoHash(line);
    PrefixAt(m, "---", 0);
    PrefixAt(m, "|", 0);
    PrefixAt(m, "- ", 0);
    PrefixAt(m, "+ ", 0);
    PrefixOf("```", rest);
    hide Strip, StartsWith;
  }

  /** A paragraph is the line without the white space around it. */
  lemma ParagraphsAre(a: string, m: string, b: string)
    requires AllSpace(a) && AllSpace(b) && m != "" && !IsSpace(m[|m| - 1])
    requires !IsSpace(m[0]) && m[0] != '#' && m[0] != '|' && m[0] != '`' && m[0] != '-' && m[0] != '+'
    ensures ItemsAt(a + m + b) == [ParagraphItem(m)]
  {
    StripIs(a, m, b);
    var line := a + m + b;
    FirstIs(a, m[0], line);
    PrefixAt(m, "---", 0);
    PrefixAt(m, "- ", 0);
    PrefixAt(m, "+ ", 0);
    PlainKind(line);
    hide KindOf, Strip, StartsWith;
  }

  /** A line that begins with a bar but does not end with one is a paragraph, when
      no table takes it. */
  lemma HalfRowsAreParagraphs(a: string, m: string, b: string)
    requires AllSpace(a) && AllSpace(b) && m != "" && m[0] == '|' && m[|m| - 1] != '|' && !IsSpace(m[|m| - 1])
    ensures ItemsAt(a + m + b) == [ParagraphItem(m)] && IsRow(a + m + b)
  {
    StripIs(a, m, b);
    var line := a + m + b;
    assert line[..|a|] == a && line[|a|] == '|';
    FirstIs(a, '|', line);
    NoHash(line);
    PrefixAt(m, "---", 0);
    PrefixAt(m, "```", 0);
    PrefixAt(m, "- ", 0);
    PrefixAt(m, "+ ", 0);
    assert StartsWith(m, "|");
    hide Strip, StartsWith;
  }

  // ----- tables

  lemma {:induction false} SplitFirst(p: string, c: char, rest: string)
    requires c !in p
    ensures SplitOn(p + [c] + rest, c) == [p] + SplitOn(rest, c)
    ensures SplitOn(p, c) == [p]
  {
    if p == "" {
      assert ("" + [c] + rest)[1..] == rest;
    } else {
      SplitFirst(p[1..], c, rest);
      assert (p + [c] + rest)[1..] == p[1..] + [c] + rest;
      assert [p[0]] + p[1..] == p;
    }
  }

  /** Splitting what was joined gives the parts back. */
  lemma {:induction false} JoinSplits(parts: seq<string>, c: char)
    requires parts != [] && forall i :: 0 <= i < |parts| ==> c !in parts[i]
    ensures SplitOn(Join(parts, c), c) == parts
  {
    if |parts| == 1 {
      SplitFirst(parts[0], c, "");
    } else {
      JoinSplits(parts[1..], c);
      SplitFirst(parts[0], c, Join(parts[1..], c));
      assert parts == [parts[0]] + parts[1..];
    }
  }

  /** A row as it is written: a bar before, between and after its cells. */
  function RowOf(cells: seq<string>): string {
    Join([""] + cells + [""], '|')
  }

  ghost predicate NoBars(cells: seq<string>) {
    forall i :: 0 <= i < |cells| ==> '|' !in cells[i]
  }

  lemma CellsAre(cells: seq<string>)
    requires cells != [] && NoBars(cells)
    ensures Cells(RowOf(cells)) == StripAll(cells)
  {
    var parts := [""] + cells + [""];
    JoinSplits(parts, '|');
    assert parts[1..|parts| - 1] == cells;
  }

  lemma {:induction false} DataRowsAre(rows: seq<seq<string>>, lines: seq<string>, width: nat)
    requires |rows| == |lines|
    requires forall i :: 0 <= i < |rows| ==> rows[i] != [] && NoBars(rows[i]) && lines[i] == RowOf(rows[i])
    ensures |DataRows(lines, width)| == |rows|
    ensures forall i :: 0 <= i < |rows| ==> DataRows(lines, width)[i] == FitRow(StripAll(rows[i]), width)
  {
    hide RowOf, Cells, FitRow;
    if rows != [] {
      var n := |rows| - 1;
      DataRowsAre(rows[..n], lines[..n], width);
      CellsAre(rows[n]);
    }
  }

  lemma {:induction false} JoinEnds(parts: seq<string>, c: char)
    requires |parts| >= 2 && parts[0] == "" == parts[|parts| - 1]
    ensures Join(parts, c) != "" && Join(parts, c)[0] == c
    ensures Join(parts, c)[|Join(parts, c)| - 1] == c
  {
    JoinEndsIn(parts, c);
    assert Join(parts, c) == "" + [c] + Join(parts[1..], c);
  }

  lemma {:induction false} JoinEndsIn(parts: seq<string>, c: char)
    requires |parts| >= 2 && parts[|parts| - 1] == ""
    ensures Join(parts, c) != "" && Join(parts, c)[|Join(parts, c)| - 1] == c
  {
    if |parts| > 2 {
      JoinEndsIn(parts[1..], c);
    } else {
      assert parts[1..] == [""];
    }
  }

  /** Every such row opens a table, and continues one. */
  lemma RowsAreTables(a: string, cells: seq<string>, b: string)
    requires AllSpace(a) && AllSpace(b)
    ensures Strip(a + RowOf(cells) + b) == RowOf(cells)
    ensures KindOf(a + RowOf(cells) + b) == Table && IsRow(a + RowOf(cells) + b)
  {
    var row, line := RowOf(cells), a + RowOf(cells) + b;
    JoinEnds([""] + cells + [""], '|');
    StripIs(a, row, b);
    assert line[..|a|] == a && line[|a|] == row[0];
    FirstIs(a, row[0], line);
    NoHash(line);
    PrefixAt(row, "---", 0);
    hide Strip, RowOf;
  }

  /** A table of rows of cells: the header, no rule line, and every other row with
      as many cells as the header, each in its column, blank where there is none. */
  lemma TablesAre(header: seq<string>, rows: seq<seq<string>>, lines: seq<string>)
    requires header != [] && NoBars(header) && rows != [] && |lines| == |rows| + 2
    requires Strip(lines[0]) == RowOf(header)
    requires forall i :: 0 <= i < |rows| ==> rows[i] != [] && NoBars(rows[i]) && Strip(lines[i + 2]) == RowOf(rows[i])
    ensures exists table: seq<seq<string>> ::
      && ItemsOf(Block(Table, lines)) == [TableItem(StripAll(header), table), ParagraphItem("")]
      && |table| == |rows|
      && forall i, j :: 0 <= i < |rows| && 0 <= j < |header| ==>
        |table[i]| == |header| && table[i][j] == if j < |rows[i]| then Strip(rows[i][j]) else ""
  {
    hide RowOf, Cells, Strip;
    CellsAre(header);
    var body := StripAll(lines)[2..];
    DataRowsAre(rows, body, |header|);
    var table := DataRows(body, |header|);
    assert ItemsOf(Block(Table, lines)) == [TableItem(StripAll(header), table), ParagraphItem("")];
  }

  // ----- the loop

  method Convert(lines: seq<string>) returns (doc: seq<Item>)
    ensures doc == Written(Blocks(lines))
  {
    hide *;
    doc := [];
    ghost var blocks: seq<Block> := [];
    var i := 0;
    Start(lines);
    while i < |lines|
      invariant 0 <= i <= |lines|
      invariant Progress(lines, i, blocks, doc)
      decreases |lines| - i
    {
      var line := lines[i];
      var kind := KindOf(line);
      ghost var b := FirstBlock(lines[i..]);
      FirstKind(lines[i..]);
      Step(lines, i, blocks, doc);
      blocks := blocks + [b];
      if kind == Skipped {
        SkippedWritesNothing(b);
        assert doc + [] == doc;
        i := i + 1;
        continue;
      }
      var items: seq<Item> := [];
      if kind == Table {
        var tableLines;
        tableLines, i := TakeTable(lines, i);
        i := i - 1;
        items := WriteTable(tableLines);
      } else {
        if kind == Fence {
          i := SkipCode(lines, i);
        }
        items := ItemsOf(Block(kind, [line]));
      }
      assert items == ItemsOf(b) by {
        TableOrLine(b);
      }
      doc := doc + items;
      i := i + 1;
    }
    Finish(lines, blocks, doc);
  }

  /** The inner loop over a table's lines. */
  method TakeTable(lines: seq<string>, start: nat) returns (tableLines: seq<string>, i: nat)
    requires start < |lines| && KindOf(lines[start]) == Table
    ensures i == start + FirstLength(lines[start..])
    ensures tableLines == StripAll(FirstBlock(lines[start..]).lines)
  {
    TableStartsWithRow(lines[start]);
    hide KindOf, IsRow, LeadingRows;
    tableLines := [];
    i := start;
    while i < |lines| && IsRow(lines[i])
      invariant start <= i <= |lines|
      invariant tableLines == StripAll(lines[start..i])
      invariant forall k :: start <= k < i ==> IsRow(lines[k])
      decreases |lines| - i
    {
      assert lines[start..i + 1] == lines[start..i] + [lines[i]];
      tableLines := tableLines + [Strip(lines[i])];
      i := i + 1;
    }
    LeadingRowsIs(lines[start..][1..], i - start - 1);
    assert lines[start..][..i - start] == lines[start..i];
  }

  /** The loop that should skip fenced code stops on the fence it starts from. */
  method SkipCode(lines: seq<string>, start: nat) returns (i: nat)
    requires start < |lines| && KindOf(lines[start]) == Fence
    ensures i == start
  {
    hide KindOf, IsFence;
    i := start;
    while i < |lines| && !IsFence(lines[i])
      invariant start <= i <= |lines| && forall k :: start <= k < i ==> !IsFence(lines[k])
    {
      i := i + 1;
    }
    FenceOpens(lines[start]);
  }

  ghost predicate Progress(lines: seq<string>, i: nat, blocks: seq<Block>, doc: seq<Item>) {
    i <= |lines| && blocks + Blocks(lines[i..]) == Blocks(lines) && Full(blocks) && doc == Written(blocks)
  }

  lemma Start(lines: seq<string>)
    ensures Progress(lines, 0, [], [])
  {
    hide Blocks;
    assert lines[0..] == lines;
    assert [] + Blocks(lines) == Blocks(lines);
  }

  /** One turn of the loop, whatever the block. */
  lemma Step(lines: seq<string>, i: nat, blocks: seq<Block>, doc: seq<Item>)
    requires i < |lines| && Progress(lines, i, blocks, doc)
    ensures var b, n := FirstBlock(lines[i..]), FirstLength(lines[i..]);
      b.lines != [] && Progress(lines, i + n, blocks + [b], doc + ItemsOf(b))
  {
    hide Blocks, KindOf, FirstLength, FirstBlock, ItemsOf, Written;
    var rest := lines[i..];
    var b, n := FirstBlock(rest), FirstLength(rest);
    BlocksStep(rest);
    FirstTakes(rest);
    assert rest[n..] == lines[i + n..];
    assert blocks + ([b] + Blocks(rest[n..])) == blocks + [b] + Blocks(rest[n..]);
    AddBlock(blocks, b);
  }

  lemma Finish(lines: seq<string>, blocks: seq<Block>, doc: seq<Item>)
    requires Progress(lines, |lines|, blocks, doc)
    ensures doc == Written(Blocks(lines))
  {
    assert Blocks(lines[|lines|..]) == [];
    assert blocks + [] == blocks;
  }

  lemma FenceOpens(line: string)
    requires KindOf(line) == Fence
    ensures IsFence(line)
  {
  }

  lemma FirstKind(lines: seq<string>)
    requires lines != []
    ensures FirstBlock(lines).kind == KindOf(lines[0])
    ensures KindOf(lines[0]) != Table ==> FirstLength(lines) == 1 && FirstBlock(lines).lines == [lines[0]]
  {
    hide KindOf;
  }

  lemma AddBlock(blocks: seq<Block>, b: Block)
    requires Full(blocks) && b.lines != []
    ensures Full(blocks + [b]) && Written(blocks + [b]) == Written(blocks) + ItemsOf(b)
  {
    hide ItemsOf;
    assert (blocks + [b])[..|blocks|] == blocks;
  }

  lemma SkippedWritesNothing(b: Block)
    requires b.kind == Skipped && b.lines != []
    ensures ItemsOf(b) == []
  {
  }

  lemma TableOrLine(b: Block)
    requires b.lines != []
    ensures b.kind == Table ==> ItemsOf(b) == TableItems(StripAll(b.lines))
    ensures |b.lines| == 1 ==> b == Block(b.kind, [b.lines[0]])
  {
  }

  method WriteTable(tableLines: seq<string>) returns (items: seq<Item>)
    ensures items == TableItems(tableLines)
  {
    if |tableLines| < 2 {
      return [];
    }
    var headers := Cells(tableLines[0]);
    var rowsData: seq<seq<string>> := [];
    var body := tableLines[2..];
    for r := 0 to |body|
      invariant rowsData == DataRows(body[..r], |headers|)
    {
      assert body[..r + 1][..r] == body[..r];
      var cells := Cells(body[r]);
      if cells != [] {
        rowsData := rowsData + [FitRow(cells, |headers|)];
      }
    }
    assert body[..|body|] == body;
    items := if headers == [] || rowsData == [] then [] else [TableItem(headers, rowsData), ParagraphItem("")];
  }
}
