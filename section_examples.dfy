/** Worked lines from the site-information format, checked against the
    block parser's definitions. */
module SectionExamples {
  import opened SectionParser

  /** A disabled entry is skipped whatever the section. */
  lemma DisabledLineExample(sec: Section)
    ensures Kind("0 3 ABC 12.3", sec) == Disabled
  {
    assert LStrip("0 3 ABC 12.3") == "0 3 ABC 12.3";
  }

  /** Fields separated by runs of spaces come out separated by single
      commas. */
  lemma FieldsJoinedByCommas(a: string, b: string, c: string, gap1: string, gap2: string)
    requires ' ' !in a && ' ' !in b && ' ' !in c
    requires b != [] && c != []
    requires |gap1| > 0 && forall i :: 0 <= i < |gap1| ==> gap1[i] == ' '
    requires |gap2| > 0 && forall i :: 0 <= i < |gap2| ==> gap2[i] == ' '
    ensures CollapseSpaces(a + (gap1 + (b + (gap2 + c)))) == a + ([','] + (b + ([','] + c)))
  {
    var x := b + (gap2 + c);
    assert CollapseSpaces(gap2 + c) == [','] + c by {
      assert c[0] in c;
      CollapseKeepsWord(c, []);
      assert c + [] == c;
      CollapseRun(gap2, c);
    }
    CollapseKeepsWord(b, gap2 + c);
    assert x[0] != ' ' by { assert b[0] in b; }
    CollapseRun(gap1, x);
    CollapseKeepsWord(a, gap1 + x);
  }

  /** The line "  3   ABC   12.3" of a section becomes the row "3,ABC,12.3". */
  lemma DataLineExample(line: string)
    requires line == "  3   ABC   12.3"
    ensures Normalize(line) == "3,ABC,12.3"
  {
    var trimmed := "3" + ("   " + ("ABC" + ("   " + "12.3")));
    assert LStrip(line) == trimmed by { LeadingBlanksExample(line, trimmed); }
    var row := "3" + ([','] + ("ABC" + ([','] + "12.3")));
    assert CollapseSpaces(trimmed) == row by {
      FieldsJoinedByCommas("3", "ABC", "12.3", "   ", "   ");
    }
    assert RemoveUnderscores(row) == row by { NoUnderscoreKept(row); }
    assert row == "3,ABC,12.3";
  }

  lemma LeadingBlanksExample(line: string, trimmed: string)
    requires line == "  3   ABC   12.3"
    requires trimmed == "3" + ("   " + ("ABC" + ("   " + "12.3")))
    ensures LStrip(line) == trimmed
  {
    assert line == "  " + trimmed;
    LStripRun("  ", trimmed);
  }
}
