/** The string expressions of the log service: splitting on runs of line
    terminators (`s.split(/[\r\n]+/)`), the blank test (`line.trim() !== ""`)
    and the case-insensitive keyword test
    (`line.toLowerCase().includes(keyword.toLowerCase())`). Characters stand for
    single bytes. */
module Lines {
  import opened Seqs

  predicate IsTerminator(c: char) {
    c == '\r' || c == '\n'
  }

  predicate TerminatorFree(s: string) {
    forall i :: 0 <= i < |s| ==> !IsTerminator(s[i])
  }

  /** `s.split(/[\r\n]+/)`: the pieces between maximal runs of `\r`/`\n`.
      There is always at least one piece. For a non-empty text, the first piece
      is empty exactly when the text starts with a terminator; `""` splits into
      `[""]`. SplitRunsPieces and SplitRunsRejoin say the rest. */
  function SplitRuns(s: string): (r: seq<string>)
    ensures |r| >= 1
    ensures s != [] && IsTerminator(s[0]) ==> r[0] == []
    ensures s != [] && !IsTerminator(s[0]) ==> r[0] != []
    decreases |s|
  {
    if s == [] then [[]]
    else if IsTerminator(s[0]) then
      if |s| > 1 && IsTerminator(s[1]) then SplitRuns(s[1..])
      else [[]] + SplitRuns(s[1..])
    else
      var r := SplitRuns(s[1..]);
      [[s[0]] + r[0]] + r[1..]
  }

  /** No piece holds a terminator, the pieces between the first and the last are
      never empty, and the first piece is where `s` starts. */
  lemma {:induction false} SplitRunsPieces(s: string)
    ensures var r := SplitRuns(s);
      && (forall i :: 0 <= i < |r| ==> TerminatorFree(r[i]))
      && (forall i :: 0 < i < |r| - 1 ==> r[i] != [])
      && r[0] <= s
    decreases |s|
  {
    if s != [] {
      SplitRunsPieces(s[1..]);
      var r := SplitRuns(s[1..]);
      if !IsTerminator(s[0]) {
        var h := [s[0]] + r[0];
        assert TerminatorFree(h) by {
          forall j | 0 <= j < |h| ensures !IsTerminator(h[j]) {
            if j > 0 { assert h[j] == r[0][j - 1]; }
          }
        }
        assert SplitRuns(s) == [h] + r[1..];
      }
    }
  }

  /** The piece that the backward scan keeps as its fragment: everything before
      the first terminator. */
  function Head(s: string): (h: string)
    ensures h <= s && TerminatorFree(h)
    ensures |h| < |s| ==> IsTerminator(s[|h|])
  {
    SplitRunsPieces(s);
    HeadEndsAtTerminator(s);
    SplitRuns(s)[0]
  }

  /** The pieces after the first one: lines whose start is known. */
  function Rest(s: string): seq<string> {
    SplitRuns(s)[1..]
  }

  lemma {:induction false} HeadEndsAtTerminator(s: string)
    ensures |SplitRuns(s)[0]| < |s| ==> IsTerminator(s[|SplitRuns(s)[0]|])
    decreases |s|
  {
    if s != [] && !IsTerminator(s[0]) {
      HeadEndsAtTerminator(s[1..]);
    }
  }

  /** `a` followed by separators `seps[i]` and the pieces `segs[i + 1]`. */
  function Interleave(segs: seq<string>, seps: seq<string>): string
    requires |segs| == |seps| + 1
  {
    if seps == [] then segs[0]
    else segs[0] + seps[0] + Interleave(segs[1..], seps[1..])
  }

  /** `s` is the pieces `segs` put back together with `seps`: non-empty
      separators made only of terminators. */
  predicate IsRejoin(segs: seq<string>, seps: seq<string>, s: string) {
    && |seps| + 1 == |segs|
    && (forall i :: 0 <= i < |seps| ==> seps[i] != [])
    && (forall i, j :: 0 <= i < |seps| && 0 <= j < |seps[i]| ==> IsTerminator(seps[i][j]))
    && Interleave(segs, seps) == s
  }

  /** SplitRuns is a split on maximal runs: `s` is its pieces put back
      together with non-empty separators made only of terminators. Together
      with SplitRunsPieces (pieces hold no terminator, the inner pieces are not
      empty), this fixes the pieces uniquely. */
  lemma {:induction false} SplitRunsRejoin(s: string) returns (seps: seq<string>)
    ensures IsRejoin(SplitRuns(s), seps, s)
    decreases |s|
  {
    if s == [] {
      seps := [];
    } else {
      var t := SplitRunsRejoin(s[1..]);
      var r := SplitRuns(s[1..]);
      assert s == [s[0]] + s[1..];
      if IsTerminator(s[0]) {
        if |s| > 1 && IsTerminator(s[1]) {
          // the run starting at s[0] goes on: widen the first separator
          seps := RejoinWiden(s[0], r, t, s[1..]);
        } else {
          seps := RejoinNewSeparator(s[0], r, t, s[1..]);
        }
      } else {
        RejoinExtend(s[0], r, t, s[1..]);
        seps := t;
      }
    }
  }

  lemma RejoinWiden(c: char, segs: seq<string>, t: seq<string>, s: string) returns (seps: seq<string>)
    requires IsTerminator(c) && IsRejoin(segs, t, s)
    requires s != [] && segs[0] == []
    ensures IsRejoin(segs, seps, [c] + s)
  {
    assert |t| >= 1;
    seps := [[c] + t[0]] + t[1..];
    assert Interleave(segs, t) == segs[0] + t[0] + Interleave(segs[1..], t[1..]);
    assert Interleave(segs, seps) == segs[0] + seps[0] + Interleave(segs[1..], t[1..]);
    forall i, j | 0 <= i < |seps| && 0 <= j < |seps[i]| ensures IsTerminator(seps[i][j]) {
      if i == 0 && j > 0 {
        assert seps[0][j] == t[0][j - 1];
      } else if i > 0 {
        assert seps[i] == t[i];
      }
    }
  }

  lemma RejoinNewSeparator(c: char, segs: seq<string>, t: seq<string>, s: string) returns (seps: seq<string>)
    requires IsTerminator(c) && IsRejoin(segs, t, s)
    ensures IsRejoin([[]] + segs, seps, [c] + s)
  {
    seps := [[c]] + t;
    var segs' := [[]] + segs;
    assert segs'[1..] == segs && seps[1..] == t;
    assert Interleave(segs', seps) == [] + [c] + Interleave(segs, t);
  }

  lemma RejoinExtend(c: char, segs: seq<string>, t: seq<string>, s: string)
    requires !IsTerminator(c) && IsRejoin(segs, t, s)
    ensures IsRejoin([[c] + segs[0]] + segs[1..], t, [c] + s)
  {
    var segs' := [[c] + segs[0]] + segs[1..];
    if t != [] {
      assert segs'[1..] == segs[1..];
      assert Interleave(segs', t) == ([c] + segs[0]) + t[0] + Interleave(segs[1..], t[1..]);
    }
  }

  /** A line without terminators splits into itself. */
  lemma {:induction false} SplitTerminatorFree(x: string)
    requires TerminatorFree(x)
    ensures SplitRuns(x) == [x]
    decreases |x|
  {
    if x != [] {
      SplitTerminatorFree(x[1..]);
      assert x == [x[0]] + x[1..];
    }
  }

  lemma ConsNonTerminator(c: char, s: string)
    requires !IsTerminator(c)
    ensures Head([c] + s) == [c] + Head(s)
    ensures Rest([c] + s) == Rest(s)
  {
    assert ([c] + s)[1..] == s;
  }

  /** A terminator in front: the first piece is empty, and the pieces of `s` follow,
      with `s`'s own first piece dropped when it is empty because the run goes on. */
  lemma ConsTerminator(c: char, s: string)
    requires IsTerminator(c)
    ensures Head([c] + s) == []
    ensures || (Head(s) == [] && Rest([c] + s) == Rest(s))
            || Rest([c] + s) == [Head(s)] + Rest(s)
  {
    assert ([c] + s)[1..] == s;
  }

  lemma ConsTerminatorRest(c: char, s: string)
    requires IsTerminator(c)
    ensures Filter(NonEmpty, Rest([c] + s)) == Filter(NonEmpty, [Head(s)]) + Filter(NonEmpty, Rest(s))
  {
    ConsTerminator(c, s);
    FilterConcat(NonEmpty, [Head(s)], Rest(s));
  }

  lemma ConsTerminatorSuffix(c: char, s: string)
    requires IsTerminator(c)
    ensures IsSuffix(Rest(s), Rest([c] + s))
  {
    ConsTerminator(c, s);
  }

  predicate NonEmpty(line: string) {
    line != []
  }

  /** Prepending text never disturbs the pieces of `b` after its first one:
      they are the last pieces of `a + b` as well. */
  lemma {:induction false} RestSuffix(a: string, b: string)
    ensures IsSuffix(Rest(b), Rest(a + b))
    decreases |a|
  {
    if a == [] {
      assert a + b == b;
    } else {
      assert a + b == [a[0]] + (a[1..] + b);
      RestSuffix(a[1..], b);
      if IsTerminator(a[0]) {
        ConsTerminatorSuffix(a[0], a[1..] + b);
        SuffixTrans(Rest(b), Rest(a[1..] + b), Rest(a + b));
      } else {
        ConsNonTerminator(a[0], a[1..] + b);
      }
    }
  }

  /** Chunk stitching keeps the first piece: the fragment carried after joining
      the earlier text `a` to the first piece of `b` is the first piece of `a + b`. */
  lemma {:induction false} StitchHead(a: string, b: string)
    ensures Head(a + b) == Head(a + Head(b))
    decreases |a|
  {
    var h := Head(b);
    if a == [] {
      assert a + b == b && a + h == h;
      SplitTerminatorFree(h);
    } else {
      var s, s2 := a[1..] + b, a[1..] + h;
      assert a + b == [a[0]] + s;
      assert a + h == [a[0]] + s2;
      StitchHead(a[1..], b);
      if IsTerminator(a[0]) {
        ConsTerminator(a[0], s);
        ConsTerminator(a[0], s2);
      } else {
        ConsNonTerminator(a[0], s);
        ConsNonTerminator(a[0], s2);
      }
    }
  }

  /** Chunk stitching keeps the lines: splitting the earlier text `a` joined to
      the first piece of `b`, and keeping `b`'s other pieces, yields the pieces of
      `a + b`, up to empty pieces (a terminator run cut by the boundary leaves one
      extra empty piece). */
  lemma {:induction false} StitchRest(a: string, b: string)
    ensures Filter(NonEmpty, Rest(a + b))
         == Filter(NonEmpty, Rest(a + Head(b))) + Filter(NonEmpty, Rest(b))
    decreases |a|
  {
    var h := Head(b);
    if a == [] {
      assert a + b == b && a + h == h;
      SplitTerminatorFree(h);
      assert Rest(h) == [];
    } else {
      assert a + b == [a[0]] + (a[1..] + b);
      assert a + h == [a[0]] + (a[1..] + h);
      StitchRest(a[1..], b);
      if IsTerminator(a[0]) {
        StitchHead(a[1..], b);
        StitchRestStep(a[0], a[1..] + b, a[1..] + h, Rest(b));
      } else {
        ConsNonTerminator(a[0], a[1..] + b);
        ConsNonTerminator(a[0], a[1..] + h);
      }
    }
  }

  /** The inductive step of StitchRest for a terminator in front. */
  lemma StitchRestStep(c: char, s: string, s2: string, tail: seq<string>)
    requires IsTerminator(c)
    requires Head(s) == Head(s2)
    requires Filter(NonEmpty, Rest(s)) == Filter(NonEmpty, Rest(s2)) + Filter(NonEmpty, tail)
    ensures Filter(NonEmpty, Rest([c] + s))
         == Filter(NonEmpty, Rest([c] + s2)) + Filter(NonEmpty, tail)
  {
    ConsTerminatorRest(c, s);
    ConsTerminatorRest(c, s2);
    Regroup(Filter(NonEmpty, [Head(s)]), Filter(NonEmpty, Rest(s)), Filter(NonEmpty, Rest(s2)),
      Filter(NonEmpty, tail), Filter(NonEmpty, Rest([c] + s)), Filter(NonEmpty, Rest([c] + s2)));
  }

  // ---- blank lines: `line.trim() !== ""` ----

  /** The ASCII white space that `String.prototype.trim` removes. */
  predicate IsWhitespace(c: char) {
    c == ' ' || c == '\t' || c == '\n' || c == '\r' || c == '\U{000B}' || c == '\U{000C}'
  }

  function TrimStart(s: string): string {
    if s != [] && IsWhitespace(s[0]) then TrimStart(s[1..]) else s
  }

  function TrimEnd(s: string): string {
    if s != [] && IsWhitespace(s[|s| - 1]) then TrimEnd(s[..|s| - 1]) else s
  }

  /** `s.trim()` */
  function Trim(s: string): string {
    TrimEnd(TrimStart(s))
  }

  /** A line is kept by the unfiltered tail when trimming leaves something. */
  predicate NonBlank(line: string) {
    Trim(line) != ""
  }

  predicate AllWhitespace(s: string) {
    forall i :: 0 <= i < |s| ==> IsWhitespace(s[i])
  }

  /** TrimStart drops the leading white space and stops at the first other character. */
  lemma {:induction false} TrimStartDrops(s: string) returns (k: nat)
    ensures k <= |s| && TrimStart(s) == s[k..]
    ensures AllWhitespace(s[..k])
    ensures k == |s| || !IsWhitespace(s[k])
    decreases |s|
  {
    if s != [] && IsWhitespace(s[0]) {
      var j := TrimStartDrops(s[1..]);
      k := j + 1;
      assert s[1..][j..] == s[k..];
      assert s[..k] == [s[0]] + s[1..][..j];
    } else {
      k := 0;
    }
  }

  /** TrimEnd drops the trailing white space and stops at the last other character. */
  lemma {:induction false} TrimEndDrops(s: string) returns (k: nat)
    ensures k <= |s| && TrimEnd(s) == s[..k]
    ensures AllWhitespace(s[k..])
    ensures k == 0 || !IsWhitespace(s[k - 1])
    decreases |s|
  {
    if s != [] && IsWhitespace(s[|s| - 1]) {
      var init := s[..|s| - 1];
      k := TrimEndDrops(init);
      assert init[..k] == s[..k];
      assert s[k..] == init[k..] + [s[|s| - 1]];
    } else {
      k := |s|;
    }
  }

  /** TrimEnd leaves nothing exactly when everything is white space. */
  lemma {:induction false} TrimEndEmpty(s: string)
    ensures TrimEnd(s) == [] <==> AllWhitespace(s)
    decreases |s|
  {
    if s != [] && IsWhitespace(s[|s| - 1]) {
      TrimEndEmpty(s[..|s| - 1]);
      assert s == s[..|s| - 1] + [s[|s| - 1]];
    }
  }

  /** Trimming leaves nothing exactly when every character is white space. */
  lemma TrimEmptyIffBlank(s: string)
    ensures Trim(s) == [] <==> AllWhitespace(s)
  {
    var k := TrimStartDrops(s);
    TrimEndEmpty(s[k..]);
    if k < |s| {
      assert s[k..][0] == s[k];
    } else {
      assert s == s[..k];
    }
  }

  // ---- the keyword test ----

  /** ASCII lower-casing of one character. */
  function LowerChar(c: char): (d: char)
    ensures 'A' <= c <= 'Z' ==> d as int == c as int + 32
    ensures !('A' <= c <= 'Z') ==> d == c
  {
    if 'A' <= c <= 'Z' then (c as int + 32) as char else c
  }

  /** `s.toLowerCase()` */
  function Lower(s: string): (r: string)
    ensures |r| == |s|
    ensures forall i :: 0 <= i < |s| ==> r[i] == LowerChar(s[i])
  {
    if s == [] then [] else [LowerChar(s[0])] + Lower(s[1..])
  }

  lemma LowerIdempotent(s: string)
    ensures Lower(Lower(s)) == Lower(s)
  {
    assert forall i :: 0 <= i < |s| ==> LowerChar(LowerChar(s[i])) == LowerChar(s[i]);
  }

  predicate OccursAt(hay: string, needle: string, i: int) {
    0 <= i && i + |needle| <= |hay| && hay[i..i + |needle|] == needle
  }

  /** `hay.includes(needle)` */
  predicate Contains(hay: string, needle: string)
    decreases |hay|
  {
    needle <= hay || (hay != [] && Contains(hay[1..], needle))
  }

  /** A match found by Contains is an occurrence. */
  lemma {:induction false} ContainsOccurs(hay: string, needle: string) returns (i: int)
    requires Contains(hay, needle)
    ensures OccursAt(hay, needle, i)
    decreases |hay|
  {
    if needle <= hay {
      i := 0;
    } else {
      var j := ContainsOccurs(hay[1..], needle);
      assert hay[j + 1..j + 1 + |needle|] == hay[1..][j..j + |needle|];
      i := j + 1;
    }
  }

  /** Every occurrence is found by Contains. */
  lemma {:induction false} OccursContains(hay: string, needle: string, i: int)
    requires OccursAt(hay, needle, i)
    ensures Contains(hay, needle)
    decreases i
  {
    if i > 0 {
      assert hay[1..][i - 1..i - 1 + |needle|] == hay[i..i + |needle|];
      OccursContains(hay[1..], needle, i - 1);
    }
  }

  /** Contains finds exactly the positions where `needle` occurs. */
  lemma ContainsIff(hay: string, needle: string)
    ensures Contains(hay, needle) <==> exists i :: OccursAt(hay, needle, i)
  {
    if Contains(hay, needle) {
      var i := ContainsOccurs(hay, needle);
    }
    if exists i :: OccursAt(hay, needle, i) {
      var i :| OccursAt(hay, needle, i);
      OccursContains(hay, needle, i);
    }
  }

  /** The filter test of the grep path. */
  predicate Matches(line: string, keyword: string) {
    Contains(Lower(line), Lower(keyword))
  }

  /** The filter test as a function value, for Filter. */
  function Matcher(keyword: string): string -> bool {
    line => Matches(line, keyword)
  }

  /** A non-empty keyword never matches the empty line. */
  lemma EmptyNeverMatches(keyword: string)
    requires keyword != []
    ensures !Matches([], keyword)
  {
  }

  /** The test ignores the case of the line and of the keyword. */
  lemma MatchesIgnoresCase(line: string, keyword: string)
    ensures Matches(Lower(line), keyword) == Matches(line, keyword)
    ensures Matches(line, Lower(keyword)) == Matches(line, keyword)
  {
    LowerIdempotent(line);
    LowerIdempotent(keyword);
  }

  /** A line holding the keyword verbatim matches. */
  lemma {:induction false} VerbatimMatches(line: string, keyword: string, i: int)
    requires OccursAt(line, keyword, i)
    ensures Matches(line, keyword)
  {
    var ll, lk := Lower(line), Lower(keyword);
    assert ll[i..i + |lk|] == lk by {
      forall j | 0 <= j < |lk| ensures ll[i + j] == lk[j] {
        assert line[i + j] == keyword[j];
      }
    }
    OccursContains(ll, lk, i);
  }
}
