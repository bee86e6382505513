/** The results of the tail on small files, stated and proved, with chunks small enough that
    lines and terminator runs are cut by chunk boundaries. */
module Scenarios {
  import opened Seqs
  import opened Lines
  import opened TailSpec
  import opened LogService

  lemma ReverseTwo(x: string, y: string)
    ensures Reverse([x, y]) == [y, x]
  {
    var xs: seq<string> := [x, y];
    assert xs[1..] == [y];
  }

  /** A `\r\n` run is one separator. */
  lemma SplitCrlf()
    ensures SplitRuns("ab\r\ncd") == ["ab", "cd"]
  {
    SplitTerminatorFree("cd");
    assert "\ncd"[1..] == "cd";
    assert SplitRuns("\ncd") == ["", "cd"];
    assert "\r\ncd"[1..] == "\ncd";
    assert SplitRuns("\r\ncd") == ["", "cd"];
    assert "b\r\ncd"[1..] == "\r\ncd";
    assert "b\r\ncd"[0] == 'b' && !IsTerminator('b');
    assert ['b'] + "" == "b";
    assert "ab\r\ncd"[1..] == "b\r\ncd";
    assert "ab\r\ncd"[0] == 'a' && !IsTerminator('a');
    assert ['a'] + "b" == "ab";
  }

  /** The keyword "B" matches "ab" only, ignoring case. */
  lemma MatchCrlf()
    ensures MatchingLines("ab\r\ncd", "B", 5) == ["ab"]
  {
    SplitCrlf();
    assert Lower("B") == "b";
    assert Lower("ab") == "ab";
    assert Lower("cd") == "cd";
    assert OccursAt("ab", "b", 1);
    ContainsIff("ab", "b");
    ContainsIff("cd", "b");
    ReverseTwo("ab", "cd");
    FilterSecondOnly(Matcher("B"), "cd", "ab");
  }

  /** With chunks of 3 bytes the first read is "\ncd" and the second "ab\r": the
      `\r\n` run is cut in two, yet the filtered tail is the one of the whole file. */
  method GrepAcrossCrlfBoundary() returns (lines: seq<string>)
    ensures lines == ["ab"]
  {
    lines := TailLog(TailLogOptions("ab\r\ncd", Some(5), Some("B")), 3);
    MatchCrlf();
  }

  /** A `\n`, a line of spaces, then a `\r\n` run. */
  lemma SplitWithBlankLine()
    ensures SplitRuns("a\n \r\nb") == ["a", " ", "b"]
  {
    SplitTerminatorFree("b");
    assert "\nb"[1..] == "b";
    assert SplitRuns("\nb") == ["", "b"];
    assert "\r\nb"[1..] == "\nb";
    assert SplitRuns("\r\nb") == ["", "b"];
    assert " \r\nb"[1..] == "\r\nb";
    assert " \r\nb"[0] == ' ' && !IsTerminator(' ');
    assert [' '] + "" == " ";
    assert SplitRuns(" \r\nb") == [" ", "b"];
    assert "\n \r\nb"[1..] == " \r\nb";
    assert SplitRuns("\n \r\nb") == ["", " ", "b"];
    assert "a\n \r\nb"[1..] == "\n \r\nb";
    assert "a\n \r\nb"[0] == 'a' && !IsTerminator('a');
    assert ['a'] + "" == "a";
  }

  /** A one-character line is blank exactly when the character is white space. */
  lemma OneCharBlank(c: char)
    ensures NonBlank([c]) <==> !IsWhitespace(c)
  {
    TrimEmptyIffBlank([c]);
  }

  lemma SpacesAreBlank()
    ensures !NonBlank(" ") && NonBlank("a") && NonBlank("b")
  {
    OneCharBlank(' ');
    OneCharBlank('a');
    OneCharBlank('b');
  }

  lemma FilterSecondOnly(p: string -> bool, x: string, y: string)
    requires !p(x) && p(y)
    ensures Filter(p, [x, y]) == [y]
  {
    var xs: seq<string> := [x, y];
    assert xs[1..] == [y];
    assert Filter(p, [y]) == [y];
  }

  lemma LastNTwo(x: string, y: string)
    ensures LastN(DefaultTailEntries, [x, y]) == [x, y]
  {
  }

  /** Filtering three lines of which the middle one is blank. */
  lemma FilterMiddleBlank(x: string, y: string, z: string)
    requires NonBlank(x) && !NonBlank(y) && NonBlank(z)
    ensures Filter(NonBlank, [x, y, z]) == [x, z]
  {
    var xs: seq<string> := [x, y, z];
    assert xs[1..] == [y, z] && xs[1..][1..] == [z];
    assert Filter(NonBlank, [z]) == [z];
    assert Filter(NonBlank, [y, z]) == [z];
  }

  /** The line of spaces is left out of the non-blank lines. */
  lemma NonBlankWithBlankLine()
    ensures NonBlankLines("a\n \r\nb") == ["a", "b"]
  {
    SplitWithBlankLine();
    SpacesAreBlank();
    FilterMiddleBlank("a", " ", "b");
  }

  /** So the unfiltered tail holds the other two, newest first. */
  lemma TailWithBlankLine()
    ensures LastLines("a\n \r\nb", DefaultTailEntries) == ["b", "a"]
  {
    NonBlankWithBlankLine();
    LastNTwo("a", "b");
    ReverseTwo("a", "b");
  }

  /** Asking for more lines than there are gives every non-blank line, newest
      first; here the `\r\n` run is cut by the 2-byte chunks. */
  method TailSkipsBlankLine() returns (lines: seq<string>)
    ensures lines == ["b", "a"]
  {
    lines := TailLog(TailLogOptions("a\n \r\nb", None, None), 2);
    TailWithBlankLine();
  }

  /** A count of zero returns nothing, even with a keyword. */
  method ZeroCount() returns (lines: seq<string>)
    ensures lines == []
  {
    lines := TailLog(TailLogOptions("a\nb", Some(0), Some("a")), DefaultChunkSize);
  }
}
