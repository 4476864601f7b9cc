/** The worked examples of the system instruction the recommendations route
    sends with every prompt, run through the line parser. */
module RecommendationExamples {
  import opened JsStrings
  import opened RecommendationParser

  /** The phrases of the description in the example line of the system
      instruction. Each is checked for line terminators on its own, which
      keeps those proofs small. */
  const BlurbPhrases: seq<string> := ["A mind-bending ", "thriller ", "about dreams ", "within dreams."]

  /** The description itself. */
  const InceptionBlurb := BlurbPhrases[0] + BlurbPhrases[1] + BlurbPhrases[2] + BlurbPhrases[3]

  lemma BlurbPhrasesHaveNoLineTerminator()
    ensures forall k :: 0 <= k < |BlurbPhrases| ==> NoLineTerminator(BlurbPhrases[k])
  {
    assert NoLineTerminator(BlurbPhrases[0]);
    assert NoLineTerminator(BlurbPhrases[1]);
    assert NoLineTerminator(BlurbPhrases[2]);
    assert NoLineTerminator(BlurbPhrases[3]);
  }

  /** `.` matches the whole description, which starts and ends on a
      non-whitespace character. */
  lemma InceptionBlurbShape()
    ensures NoLineTerminator(InceptionBlurb) && InceptionBlurb != []
    ensures !IsSpace(InceptionBlurb[0]) && !IsSpace(InceptionBlurb[|InceptionBlurb| - 1])
  {
    BlurbPhrasesHaveNoLineTerminator();
    var last := BlurbPhrases[3];
    assert InceptionBlurb[0] == BlurbPhrases[0][0] == 'A';
    assert InceptionBlurb[|InceptionBlurb| - 1] == last[|last| - 1] == '.';
  }

  lemma InceptionHead(t: string)
    ensures "1" + ("." + (" " + ("**" + ("Inception" + ("**" + (" " + ("(" + t)))))))
            == "1. **Inception** (" + t
  {
  }

  lemma InceptionTail(b: string)
    ensures "1. **Inception** (" + ("2010" + ("):" + (" " + (b + "")))) == "1. **Inception** (2010): " + b
  {
  }

  /** The pieces of the example line, with any description. */
  lemma InceptionText(b: string)
    ensures LineParts("1", " ", "Inception", " ", "2010", " ", b, "").Text()
            == "1. **Inception** (2010): " + b
  {
    var c := LineParts("1", " ", "Inception", " ", "2010", " ", b, "");
    var t := c.TailPart().Text();
    assert t == "2010" + ("):" + (" " + (b + "")));
    assert c.Text() == "1" + ("." + (" " + ("**" + ("Inception" + ("**" + (" " + ("(" + t)))))));
    InceptionHead(t);
    InceptionTail(b);
  }

  /** The example line of the system instruction parses to its title, year
      and description. */
  lemma InceptionExample()
    ensures ParseLine("1. **Inception** (2010): " + InceptionBlurb)
            == Some(Recommendation("Inception", "2010", InceptionBlurb))
  {
    InceptionBlurbShape();
    var c := LineParts("1", " ", "Inception", " ", "2010", " ", InceptionBlurb, "");
    InceptionText(InceptionBlurb);
    assert c.WellFormed();
    ParseLineExact(c);
  }

  /** The pieces of the example line have the shape a record line needs. */
  lemma InceptionPartsShape(c: LineParts)
    requires c == LineParts("1", " ", "Inception", " ", "2010", " ", InceptionBlurb, "")
    ensures c.WellFormed() && IsDigit(c.year[0]) && !IsSpace(c.rest[0]) && c.tail == []
  {
    InceptionBlurbShape();
  }

  /** The example line holds no line feed. */
  lemma InceptionLineSingle()
    ensures '\n' !in "1. **Inception** (2010): " + InceptionBlurb
  {
    InceptionBlurbShape();
    assert '\n' !in "1. **Inception** (2010): ";
  }

  /** The example line as a record line of a section. */
  lemma InceptionRecordLine(c: LineParts)
    requires c == LineParts("1", " ", "Inception", " ", "2010", " ", InceptionBlurb, "")
    ensures RecordLine(c).Text() == "1. **Inception** (2010): " + InceptionBlurb
    ensures RecordLine(c).Admissible()
    ensures RecordLine(c).Record() == Some(Recommendation("Inception", "2010", InceptionBlurb))
  {
    InceptionBlurbShape();
    InceptionText(InceptionBlurb);
    InceptionPartsShape(c);
    InceptionLineSingle();
    RecordLineAdmissible(c);
    TrimUnchanged(c.title);
    TrimUnchanged(c.rest);
  }

  /** A line between an empty line and two blank lines. */
  lemma JoinBetweenBlankLines(line: string)
    ensures Join(["", line, "", ""], "\n") == "\n" + line + "\n\n"
  {
    assert ["", line, "", ""][1..] == [line, "", ""];
    assert [line, "", ""][1..] == ["", ""];
    assert ["", ""][1..] == [""];
    assert Join(["", ""], "\n") == "\n";
    assert Join([line, "", ""], "\n") == line + "\n" + "\n";
    assert "\n" + "\n" == "\n\n";
  }

  /** A movies section as it stands between the two markers when the reply
      puts the example line on a line of its own: the empty rest of the marker
      line, the example line, and two blank lines. It yields exactly the one
      record. */
  lemma InceptionSectionExample(line: string)
    requires line == "1. **Inception** (2010): " + InceptionBlurb
    ensures ParseRecommendations("\n" + line + "\n\n") == [Recommendation("Inception", "2010", InceptionBlurb)]
  {
    var c := LineParts("1", " ", "Inception", " ", "2010", " ", InceptionBlurb, "");
    InceptionRecordLine(c);
    var lines := BetweenBlankLines(RecordLine(c));
    BetweenBlankLinesAdmissible(RecordLine(c));
    WellFormedSection(lines);
    BetweenBlankLinesTexts(RecordLine(c));
    BetweenBlankLinesRecords(RecordLine(c));
    JoinBetweenBlankLines(line);
  }

  /** One section line after an empty line and before two blank ones. */
  function BetweenBlankLines(l: SectionLine): seq<SectionLine> {
    [OtherLine(""), l, OtherLine(""), OtherLine("")]
  }

  lemma BetweenBlankLinesTexts(l: SectionLine)
    ensures Texts(BetweenBlankLines(l)) == ["", l.Text(), "", ""]
  {
    var t := Texts(BetweenBlankLines(l));
    assert t[0] == "" && t[1] == l.Text() && t[2] == "" && t[3] == "";
  }

  /** The blank lines add no records. */
  lemma BetweenBlankLinesRecords(l: SectionLine)
    ensures ExpectedRecords(BetweenBlankLines(l)) == Kept(l.Record())
  {
    var l2 := [OtherLine(""), OtherLine("")];
    var l3 := [OtherLine("")];
    assert BetweenBlankLines(l)[1..] == [l] + l2 && l2[1..] == l3 && l3[1..] == [];
    assert ExpectedRecords(l3) == [];
    assert ExpectedRecords(l2) == [];
  }

  lemma BetweenBlankLinesAdmissible(l: SectionLine)
    requires l.Admissible()
    ensures forall k :: 0 <= k < |BetweenBlankLines(l)| ==> BetweenBlankLines(l)[k].Admissible()
  {
    assert OtherLine("").Admissible();
  }

  /** The line the system instruction asks for when a section has nothing to
      recommend yields no record. */
  lemma NoneLineExample()
    ensures ParseLine("None.").None?
  {
    ParseLineNeedsLeadingDigit("None.");
  }
}
