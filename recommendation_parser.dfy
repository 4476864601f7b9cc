/** `parseRecommendations` of the recommendations route: it splits one
    section of the completion text into lines, keeps the lines the filter
    pattern accepts, matches each against the capture pattern and turns the
    captures into `{title, year, description}` records.

    The two regular expressions are written out as a matcher over strings.
    The filter pattern is
        ^\d+\.\s+\*\*[^\*]+\*\*\s+\(\d+
    and the capture pattern is
        ^(\d+)\.\s+\*\*([^\*]+)\*\*\s+\(([^)]+)\):\s+(.+)
    Both are anchored at the start of the line and share everything up to
    the opening parenthesis (`MatchHead`). Each repetition up to `\):` is
    followed by a character it cannot consume, so taking the longest run is
    the only way to match. The exception is `\s+(.+)`: `\s+` takes the whole
    run of whitespace, and if no character that is not a line terminator
    follows it, the engine gives whitespace characters back until `(.+)` can
    start (`LastRestStart`). */
module RecommendationParser {
  import opened JsStrings

  /** The record the route returns for one recommended title. */
  datatype Recommendation = Recommendation(title: string, year: string, description: string)

  predicate AllDigits(s: string) {
    forall k :: 0 <= k < |s| ==> IsDigit(s[k])
  }

  predicate NotStar(c: char) {
    c != '*'
  }

  predicate NotCloseParen(c: char) {
    c != ')'
  }

  /** What `.` matches: any character but a line terminator. */
  predicate MatchesDot(c: char) {
    !IsLineTerminator(c)
  }

  /** What the part `^\d+\.\s+\*\*[^\*]+\*\*\s+\(` shared by both patterns
      matches: the number, the whitespace after the period, the title
      between the double stars, the whitespace before the parenthesis, and
      everything after the parenthesis. */
  datatype Head = Head(number: string, gap1: string, title: string, gap2: string, after: string)
  {
    function Text(): string {
      number + ("." + (gap1 + ("**" + (title + ("**" + (gap2 + ("(" + after)))))))
    }

    predicate WellFormed() {
      number != [] && AllDigits(number)
      && gap1 != [] && AllSpace(gap1)
      && title != [] && '*' !in title
      && gap2 != [] && AllSpace(gap2)
    }
  }

  /** What `([^)]+)\):\s+(.+)` matches after the opening parenthesis: the
      year, the whitespace after the colon, the description, and the
      unmatched end of the line. */
  datatype Tail = Tail(year: string, gap3: string, rest: string, tail: string)
  {
    function Text(): string {
      year + ("):" + (gap3 + (rest + tail)))
    }

    predicate WellFormed() {
      year != [] && ')' !in year
      && gap3 != [] && AllSpace(gap3)
      && rest != [] && NoLineTerminator(rest)
    }
  }

  /** A line cut into the pieces of the capture pattern: the four groups
      (number, title, year, rest) and the text around them. */
  datatype LineParts = LineParts(number: string, gap1: string, title: string, gap2: string,
                                 year: string, gap3: string, rest: string, tail: string)
  {
    function HeadPart(): Head {
      Head(number, gap1, title, gap2, TailPart().Text())
    }

    function TailPart(): Tail {
      Tail(year, gap3, rest, tail)
    }

    /** The line these pieces make up. */
    function Text(): string {
      HeadPart().Text()
    }

    /** Every piece has the form its part of the capture pattern demands. */
    predicate WellFormed() {
      HeadPart().WellFormed() && TailPart().WellFormed()
    }
  }

  /** Matches `^\d+\.\s+\*\*[^\*]+\*\*\s+\(` at the start of `line`. */
  function MatchHead(line: string): Option<Head> {
    var (number, s1) := SplitWhile(line, IsDigit);
    if number == [] || s1 == [] || s1[0] != '.' then None else
    var (gap1, s2) := SplitWhile(s1[1..], IsSpace);
    if gap1 == [] || |s2| < 2 || s2[..2] != "**" then None else
    var (title, s3) := SplitWhile(s2[2..], NotStar);
    if title == [] || |s3| < 2 || s3[..2] != "**" then None else
    var (gap2, s4) := SplitWhile(s3[2..], IsSpace);
    if gap2 == [] || s4 == [] || s4[0] != '(' then None else
    Some(Head(number, gap1, title, gap2, s4[1..]))
  }

  /** Where `(.+)` starts when `\s+` has first taken `s[..k]`: the largest
      `j` with `1 <= j <= k` whose character exists and is not a line
      terminator, so that `\s+` keeps at least one character. */
  function LastRestStart(s: string, k: nat): (r: Option<nat>)
    ensures r.Some? ==> 1 <= r.value <= k && r.value < |s| && !IsLineTerminator(s[r.value])
    ensures r.Some? ==> forall j :: r.value < j <= k && j < |s| ==> IsLineTerminator(s[j])
    ensures r.None? ==> forall j :: 1 <= j <= k && j < |s| ==> IsLineTerminator(s[j])
    decreases k
  {
    if k == 0 then None
    else if k < |s| && !IsLineTerminator(s[k]) then Some(k)
    else LastRestStart(s, k - 1)
  }

  /** Matches `\s+(.+)` at the start of `s`: the whitespace `\s+` keeps, the
      captured description, and the rest of the text, which `(.+)` leaves
      at the first line terminator. */
  function MatchGapRest(s: string): Option<(string, string, string)> {
    var spaces := SplitWhile(s, IsSpace).0;
    match LastRestStart(s, |spaces|)
    case None => None
    case Some(k) =>
      var (rest, tail) := SplitWhile(s[k..], MatchesDot);
      Some((s[..k], rest, tail))
  }

  /** Matches `([^)]+)\):\s+(.+)` against the text after the parenthesis. */
  function MatchTail(after: string): Option<Tail> {
    var (year, s5) := SplitWhile(after, NotCloseParen);
    if year == [] || |s5| < 2 || s5[..2] != "):" then None else
    match MatchGapRest(s5[2..])
    case None => None
    case Some((gap3, rest, tail)) => Some(Tail(year, gap3, rest, tail))
  }

  /** The capture pattern: `None` where `line.match` gives `null`. */
  function MatchLine(line: string): Option<LineParts> {
    match MatchHead(line)
    case None => None
    case Some(h) =>
      match MatchTail(h.after)
      case None => None
      case Some(t) => Some(LineParts(h.number, h.gap1, h.title, h.gap2, t.year, t.gap3, t.rest, t.tail))
  }

  /** The filter `line.trim() && line.match(/^\d+\.\s+\*\*[^\*]+\*\*\s+\(\d+/)`. */
  predicate KeepsLine(line: string) {
    Trim(line) != [] &&
    match MatchHead(line)
    case None => false
    case Some(h) => h.after != [] && IsDigit(h.after[0])
  }

  /** One line through filter, capture and record building: the title and
      the description are trimmed, the year is taken as captured. */
  function ParseLine(line: string): Option<Recommendation> {
    if KeepsLine(line) then
      match MatchLine(line)
      case Some(m) => Some(Recommendation(Trim(m.title), m.year, Trim(m.rest)))
      case None => None
    else
      None
  }

  /** The record a line contributes after the `null` filter: none or one. */
  function Kept(r: Option<Recommendation>): seq<Recommendation> {
    match r
    case Some(rec) => [rec]
    case None => []
  }

  /** `lines.map(parse).filter(item => item !== null)`: the records `parse`
      gives, in line order. */
  function KeepParsed(lines: seq<string>, parse: string -> Option<Recommendation>): (recs: seq<Recommendation>)
    ensures |recs| <= |lines|
  {
    if lines == [] then []
    else
      Kept(parse(lines[0])) + KeepParsed(lines[1..], parse)
  }

  /** The records of `lines`, one per line that parses, in line order. */
  function ParseLines(lines: seq<string>): seq<Recommendation> {
    KeepParsed(lines, ParseLine)
  }

  /** `parseRecommendations(section)`. */
  function ParseRecommendations(section: string): (recs: seq<Recommendation>)
    ensures |recs| <= |Split(section, "\n")|
  {
    ParseLines(Split(section, "\n"))
  }

  // ---------------------------------------------------------------------
  // The matcher against the grammar

  /** What `MatchHead` accepts has the shape of the shared pattern part. */
  lemma MatchHeadSound(line: string)
    ensures MatchHead(line).Some? ==>
              MatchHead(line).value.WellFormed() && MatchHead(line).value.Text() == line
  {
    var (number, s1) := SplitWhile(line, IsDigit);
    if number != [] && s1 != [] && s1[0] == '.' {
      assert s1 == "." + s1[1..];
      var (gap1, s2) := SplitWhile(s1[1..], IsSpace);
      if gap1 != [] && |s2| >= 2 && s2[..2] == "**" {
        assert s2 == "**" + s2[2..];
        var (title, s3) := SplitWhile(s2[2..], NotStar);
        if title != [] && |s3| >= 2 && s3[..2] == "**" {
          assert s3 == "**" + s3[2..];
          var (gap2, s4) := SplitWhile(s3[2..], IsSpace);
          if gap2 != [] && s4 != [] && s4[0] == '(' {
            assert s4 == "(" + s4[1..];
            assert forall i | 0 <= i < |title| :: title[i] != '*';
          }
        }
      }
    }
  }

  /** Any text of the shape of the shared pattern part is matched by
      `MatchHead`, with exactly these pieces. */
  lemma MatchHeadComplete(h: Head)
    requires h.WellFormed()
    ensures MatchHead(h.Text()) == Some(h)
  {
    var r1 := "." + (h.gap1 + ("**" + (h.title + ("**" + (h.gap2 + ("(" + h.after))))));
    SplitWhileOf(h.number, r1, IsDigit);
    var r2 := "**" + (h.title + ("**" + (h.gap2 + ("(" + h.after))));
    assert r1[1..] == h.gap1 + r2;
    SplitWhileOf(h.gap1, r2, IsSpace);
    var r3 := "**" + (h.gap2 + ("(" + h.after));
    assert r2[..2] == "**" && r2[2..] == h.title + r3;
    SplitWhileOf(h.title, r3, NotStar);
    var r4 := "(" + h.after;
    assert r3[..2] == "**" && r3[2..] == h.gap2 + r4;
    SplitWhileOf(h.gap2, r4, IsSpace);
    assert r4[1..] == h.after;
  }

  /** What `MatchGapRest` accepts is whitespace followed by a non-empty
      description without line terminators, which runs to the end of the text
      or to a line terminator. */
  lemma MatchGapRestSound(s: string)
    ensures MatchGapRest(s).Some? ==>
              var (gap, rest, tail) := MatchGapRest(s).value;
              gap != [] && AllSpace(gap) && rest != [] && NoLineTerminator(rest)
              && s == gap + (rest + tail) && (tail == [] || IsLineTerminator(tail[0]))
  {
    var spaces := SplitWhile(s, IsSpace).0;
    match LastRestStart(s, |spaces|)
    case None =>
    case Some(k) =>
      var (rest, tail) := SplitWhile(s[k..], MatchesDot);
      assert s == s[..k] + (rest + tail);
      forall i | 0 <= i < k ensures IsSpace(s[..k][i]) {
        assert s[..k][i] == spaces[i];
      }
      assert s[k..][0] == s[k];
      assert forall i | 0 <= i < |rest| :: MatchesDot(rest[i]);
  }

  /** Every text of the shape `\s+(.+)` matches, and `\s+` keeps at least the
      given whitespace: it is greedy. */
  lemma MatchGapRestComplete(gap: string, rest: string, tail: string)
    requires gap != [] && AllSpace(gap) && rest != [] && NoLineTerminator(rest)
    ensures MatchGapRest(gap + (rest + tail)).Some?
    ensures |MatchGapRest(gap + (rest + tail)).value.0| >= |gap|
  {
    var s := gap + (rest + tail);
    SplitWhileCovers(s, |gap|, IsSpace);
    assert s[|gap|] == rest[0];
    assert rest[0] in rest;
  }

  /** When the description starts on a non-whitespace character and stops at
      a line terminator or at the end, the match has exactly these pieces. */
  lemma MatchGapRestExact(gap: string, rest: string, tail: string)
    requires gap != [] && AllSpace(gap) && rest != [] && NoLineTerminator(rest)
    requires !IsSpace(rest[0])
    requires tail == [] || IsLineTerminator(tail[0])
    ensures MatchGapRest(gap + (rest + tail)) == Some((gap, rest, tail))
  {
    var s := gap + (rest + tail);
    SplitWhileOf(gap, rest + tail, IsSpace);
    var k := |gap|;
    assert s[k] == rest[0];
    assert rest[0] in rest;
    assert s[k..] == rest + tail && s[..k] == gap;
    assert forall i | 0 <= i < |rest| :: rest[i] in rest;
    SplitWhileOf(rest, tail, MatchesDot);
  }

  /** What `MatchTail` accepts has the shape of the rest of the capture
      pattern, and its `(.+)` group runs to the end of the line or to a line
      terminator. */
  lemma MatchTailSound(after: string)
    ensures MatchTail(after).Some? ==>
              var t := MatchTail(after).value;
              t.WellFormed() && t.Text() == after && (t.tail == [] || IsLineTerminator(t.tail[0]))
  {
    var (year, s5) := SplitWhile(after, NotCloseParen);
    if year != [] && |s5| >= 2 && s5[..2] == "):" {
      assert s5 == "):" + s5[2..];
      assert forall i | 0 <= i < |year| :: year[i] != ')';
      MatchGapRestSound(s5[2..]);
    }
  }

  /** Whichever way a text of the shape of the tail pattern is cut, the
      matcher accepts it, captures the same year, and its whitespace after
      the colon is at least as long: `\s+` is greedy. */
  lemma MatchTailComplete(t: Tail)
    requires t.WellFormed()
    ensures MatchTail(t.Text()).Some?
    ensures MatchTail(t.Text()).value.year == t.year
    ensures |MatchTail(t.Text()).value.gap3| >= |t.gap3|
  {
    var r5 := "):" + (t.gap3 + (t.rest + t.tail));
    SplitWhileOf(t.year, r5, NotCloseParen);
    assert r5[..2] == "):" && r5[2..] == t.gap3 + (t.rest + t.tail);
    MatchGapRestComplete(t.gap3, t.rest, t.tail);
  }

  /** A tail whose description starts with a non-whitespace character and
      runs to the end of the line or to a line terminator is matched with
      exactly these pieces. */
  lemma MatchTailExact(t: Tail)
    requires t.WellFormed()
    requires !IsSpace(t.rest[0])
    requires t.tail == [] || IsLineTerminator(t.tail[0])
    ensures MatchTail(t.Text()) == Some(t)
  {
    var r5 := "):" + (t.gap3 + (t.rest + t.tail));
    SplitWhileOf(t.year, r5, NotCloseParen);
    assert r5[..2] == "):" && r5[2..] == t.gap3 + (t.rest + t.tail);
    MatchGapRestExact(t.gap3, t.rest, t.tail);
  }

  /** Soundness of the capture pattern: a match cuts the line into pieces of
      the grammar's shape, and the description runs to the end of the line
      or to a line terminator. */
  lemma MatchLineSound(line: string)
    ensures MatchLine(line).Some? ==>
              var m := MatchLine(line).value;
              m.WellFormed() && m.Text() == line && (m.tail == [] || IsLineTerminator(m.tail[0]))
  {
    MatchHeadSound(line);
    if MatchHead(line).Some? {
      MatchTailSound(MatchHead(line).value.after);
    }
  }

  /** Completeness of the capture pattern: every line of the grammar's shape
      matches, with the same number, title and year, and the greedy
      whitespace after the colon. */
  lemma MatchLineComplete(c: LineParts)
    requires c.WellFormed()
    ensures MatchLine(c.Text()).Some?
    ensures var m := MatchLine(c.Text()).value;
            m.number == c.number && m.gap1 == c.gap1 && m.title == c.title && m.gap2 == c.gap2
            && m.year == c.year && |m.gap3| >= |c.gap3|
  {
    MatchHeadComplete(c.HeadPart());
    MatchTailComplete(c.TailPart());
  }

  /** A line of the grammar's shape whose description starts with a
      non-whitespace character and runs to the end of the line (or to a line
      terminator) is matched with exactly its own pieces. */
  lemma MatchLineExact(c: LineParts)
    requires c.WellFormed()
    requires !IsSpace(c.rest[0])
    requires c.tail == [] || IsLineTerminator(c.tail[0])
    ensures MatchLine(c.Text()) == Some(c)
  {
    MatchHeadComplete(c.HeadPart());
    MatchTailExact(c.TailPart());
  }

  // ---------------------------------------------------------------------
  // Lines and records

  /** A line yields a record only if the capture pattern matches it with a
      year that starts with a digit. The title is the trimmed text between
      the double stars and holds no star; the year is the untrimmed text
      between the parenthesis and the first `)`, which holds no `)` and is
      followed by `:`; the description is the trimmed rest of the line. */
  lemma ParseLineSound(line: string)
    ensures ParseLine(line).Some? ==>
              MatchLine(line).Some? &&
              var m := MatchLine(line).value;
              var r := ParseLine(line).value;
              m.WellFormed() && m.Text() == line && IsDigit(m.year[0])
              && r.title == Trim(m.title) && '*' !in r.title
              && r.year == m.year && ')' !in r.year
              && r.description == Trim(m.rest)
  {
    if ParseLine(line).Some? {
      MatchLineSound(line);
      MatchHeadSound(line);
      var h := MatchHead(line).value;
      MatchTailSound(h.after);
      var t := MatchTail(h.after).value;
      var m := MatchLine(line).value;
      assert m.year == t.year;
      assert h.after == t.Text();
      assert h.after[0] == t.year[0];
      var r := ParseLine(line).value;
      assert r.title == Trim(m.title);
      assert '*' !in r.title by {
        assert forall ch :: ch in r.title ==> ch in m.title;
      }
    }
  }

  /** Every line of the grammar's shape whose year starts with a digit
      yields a record with the trimmed title and the untrimmed year. */
  lemma ParseLineComplete(c: LineParts)
    requires c.WellFormed() && IsDigit(c.year[0])
    ensures ParseLine(c.Text()).Some?
    ensures ParseLine(c.Text()).value.title == Trim(c.title)
    ensures ParseLine(c.Text()).value.year == c.year
  {
    var line := c.Text();
    var h := c.HeadPart();
    MatchHeadComplete(h);
    MatchLineComplete(c);
    assert h.after[0] == c.year[0];
    HeadStartsWithDigit(h);
    TrimOfNonSpaceStart(line);
    KeepsLineOf(line, h);
    ParseLineOfMatch(line, MatchLine(line).value);
  }

  /** A line of the head's shape starts with a digit, which is not
      whitespace. */
  lemma HeadStartsWithDigit(h: Head)
    requires h.WellFormed()
    ensures h.Text() != [] && IsDigit(h.Text()[0]) && !IsSpace(h.Text()[0])
  {
    assert h.Text()[0] == h.number[0];
  }

  /** The filter keeps a line that does not trim to nothing and whose head
      is followed by a digit. */
  lemma KeepsLineOf(line: string, h: Head)
    requires Trim(line) != [] && MatchHead(line) == Some(h)
    requires h.after != [] && IsDigit(h.after[0])
    ensures KeepsLine(line)
  {
  }

  /** A line the filter keeps and the capture pattern matches yields the
      record built from the match. */
  lemma ParseLineOfMatch(line: string, m: LineParts)
    requires KeepsLine(line) && MatchLine(line) == Some(m)
    ensures ParseLine(line) == Some(Recommendation(Trim(m.title), m.year, Trim(m.rest)))
  {
  }

  /** A line in the canonical form `N. **Title** (Year): Description`, with
      the description starting on a non-whitespace character and running to
      the end of the line, yields exactly its trimmed title, its year and its
      trimmed description. */
  lemma ParseLineCanonical(c: LineParts)
    requires c.WellFormed() && IsDigit(c.year[0])
    requires !IsSpace(c.rest[0])
    requires c.tail == [] || IsLineTerminator(c.tail[0])
    ensures ParseLine(c.Text()) == Some(Recommendation(Trim(c.title), c.year, Trim(c.rest)))
  {
    ParseLineComplete(c);
    MatchLineExact(c);
  }

  /** A line that does not start with a digit yields no record: this covers
      the empty line, "None." and lines with leading whitespace. */
  lemma ParseLineNeedsLeadingDigit(line: string)
    requires line == [] || !IsDigit(line[0])
    ensures ParseLine(line).None?
  {
    SplitWhileOf([], line, IsDigit);
  }

  /** A canonical line whose title and description carry no surrounding
      whitespace yields exactly its own title, year and description. */
  lemma ParseLineExact(c: LineParts)
    requires c.WellFormed() && IsDigit(c.year[0]) && c.tail == []
    requires !IsSpace(c.title[0]) && !IsSpace(c.title[|c.title| - 1])
    requires !IsSpace(c.rest[0]) && !IsSpace(c.rest[|c.rest| - 1])
    ensures ParseLine(c.Text()) == Some(Recommendation(c.title, c.year, c.rest))
  {
    ParseLineCanonical(c);
    TrimUnchanged(c.title);
    TrimUnchanged(c.rest);
  }

  /** The records of consecutive blocks of lines are the records of each
      block, in the same order. */
  lemma {:induction false} KeepParsedAppend(a: seq<string>, b: seq<string>, parse: string -> Option<Recommendation>)
    ensures KeepParsed(a + b, parse) == KeepParsed(a, parse) + KeepParsed(b, parse)
    decreases |a|
  {
    if a == [] {
      assert a + b == b;
    } else {
      assert (a + b)[0] == a[0];
      assert (a + b)[1..] == a[1..] + b;
      KeepParsedAppend(a[1..], b, parse);
    }
  }

  /** Each record comes from some line that parses to it. */
  lemma {:induction false} KeepParsedOrigin(lines: seq<string>, parse: string -> Option<Recommendation>, r: Recommendation)
    requires r in KeepParsed(lines, parse)
    ensures exists k :: 0 <= k < |lines| && parse(lines[k]) == Some(r)
    decreases |lines|
  {
    if parse(lines[0]) != Some(r) {
      KeepParsedOrigin(lines[1..], parse, r);
      var k :| 0 <= k < |lines[1..]| && parse(lines[1..][k]) == Some(r);
      assert lines[k + 1] == lines[1..][k];
    }
  }

  /** When every line parses, there is one record per line, in line order. */
  lemma {:induction false} KeepParsedAll(lines: seq<string>, parse: string -> Option<Recommendation>)
    requires forall k :: 0 <= k < |lines| ==> parse(lines[k]).Some?
    ensures |KeepParsed(lines, parse)| == |lines|
    ensures forall k :: 0 <= k < |lines| ==> KeepParsed(lines, parse)[k] == parse(lines[k]).value
    decreases |lines|
  {
    if lines != [] {
      KeepParsedAll(lines[1..], parse);
    }
  }

  /** A section made of the given lines is parsed line by line. */
  lemma ParseRecommendationsOfLines(lines: seq<string>)
    requires |lines| >= 1
    requires forall k :: 0 <= k < |lines| ==> '\n' !in lines[k]
    ensures ParseRecommendations(Join(lines, "\n")) == ParseLines(lines)
  {
    SplitJoin(lines, "\n");
  }

  /** A line of a section as the route hands it to the parser: a record line
      in canonical form, possibly ending in the CR of a CRLF line break, or a
      line that does not start with a digit (the empty rest of the marker
      line, a blank line, `None.`). */
  datatype SectionLine = RecordLine(parts: LineParts) | OtherLine(text: string)
  {
    function Text(): string {
      match this
      case RecordLine(p) => p.Text()
      case OtherLine(t) => t
    }

    predicate Admissible() {
      '\n' !in Text() &&
      match this
      case RecordLine(p) =>
        p.WellFormed() && IsDigit(p.year[0]) && !IsSpace(p.rest[0]) && (p.tail == [] || p.tail == "\r")
      case OtherLine(t) => t == [] || !IsDigit(t[0])
    }

    /** The record the line is meant to yield. */
    function Record(): Option<Recommendation> {
      match this
      case RecordLine(p) => Some(Recommendation(Trim(p.title), p.year, Trim(p.rest)))
      case OtherLine(_) => None
    }
  }

  /** A canonical line that ends the line is a record line of a section. */
  lemma RecordLineAdmissible(p: LineParts)
    requires p.WellFormed() && IsDigit(p.year[0]) && !IsSpace(p.rest[0]) && p.tail == []
    requires '\n' !in p.Text()
    ensures RecordLine(p).Admissible()
  {
  }

  /** The lines of a section as text. */
  function Texts(lines: seq<SectionLine>): seq<string> {
    seq(|lines|, k requires 0 <= k < |lines| => lines[k].Text())
  }

  /** The records a section of such lines is meant to yield: one per record
      line, in line order, with the trimmed title, the year and the trimmed
      description. */
  function ExpectedRecords(lines: seq<SectionLine>): seq<Recommendation> {
    if lines == [] then []
    else
      Kept(lines[0].Record()) + ExpectedRecords(lines[1..])
  }

  /** Each admissible line yields the record it is meant to. */
  lemma SectionLineParses(line: SectionLine)
    requires line.Admissible()
    ensures ParseLine(line.Text()) == line.Record()
  {
    match line
    case RecordLine(p) =>
      ParseLineCanonical(p);
    case OtherLine(x) =>
      ParseLineNeedsLeadingDigit(x);
  }

  /** Line by line, record lines give their records and the other lines
      give nothing. */
  lemma {:induction false} ParseLinesOfSection(lines: seq<SectionLine>)
    requires forall k :: 0 <= k < |lines| ==> lines[k].Admissible()
    ensures ParseLines(Texts(lines)) == ExpectedRecords(lines)
    decreases |lines|
  {
    if lines != [] {
      var t := Texts(lines);
      assert t[0] == lines[0].Text();
      assert t[1..] == Texts(lines[1..]);
      SectionLineParses(lines[0]);
      ParseLinesOfSection(lines[1..]);
    }
  }

  /** A section made of record lines and other lines yields exactly the
      records of its record lines, in order. */
  lemma WellFormedSection(lines: seq<SectionLine>)
    requires |lines| >= 1
    requires forall k :: 0 <= k < |lines| ==> lines[k].Admissible()
    ensures ParseRecommendations(Join(Texts(lines), "\n")) == ExpectedRecords(lines)
  {
    var t := Texts(lines);
    forall k | 0 <= k < |t| ensures '\n' !in t[k] {
      assert t[k] == lines[k].Text();
    }
    ParseRecommendationsOfLines(t);
    ParseLinesOfSection(lines);
  }
}
