/** What the log tail returns, stated on the whole file at once: the reference
    the chunked backward scans are proved against. */
module TailSpec {
  import opened Seqs
  import opened Lines

  /** The non-blank lines of the file, oldest first. */
  function NonBlankLines(file: string): seq<string> {
    Filter(NonBlank, SplitRuns(file))
  }

  /** Unfiltered tail: the last `n` non-blank lines, newest first. */
  function LastLines(file: string, n: nat): seq<string> {
    Reverse(LastN(n, NonBlankLines(file)))
  }

  /** All lines holding the keyword, newest first. */
  function MatchingNewestFirst(file: string, keyword: string): seq<string> {
    Filter(Matcher(keyword), Reverse(SplitRuns(file)))
  }

  /** Filtered tail: the newest `n` lines holding the keyword, newest first. */
  function MatchingLines(file: string, keyword: string, n: nat): seq<string> {
    Take(n, MatchingNewestFirst(file, keyword))
  }

  /** The whole operation: nothing for a count that is not positive, the
      filtered tail for a non-empty keyword, the plain tail otherwise. */
  function Tail(file: string, n: int, keyword: string): seq<string> {
    if n <= 0 then []
    else if keyword != [] then MatchingLines(file, keyword, n)
    else LastLines(file, n)
  }

  // ---- properties of the reference ----

  /** The unfiltered tail has `min(n, L)` entries for `L` non-blank lines, none
      of them blank, and entry `i` is the `i`-th non-blank line from the end. */
  lemma LastLinesShape(file: string, n: nat)
    ensures var all, r := NonBlankLines(file), LastLines(file, n);
      && |r| == (if n <= |all| then n else |all|)
      && (forall i :: 0 <= i < |r| ==> r[i] == all[|all| - 1 - i])
      && (forall i :: 0 <= i < |r| ==> NonBlank(r[i]))
  {
    ReverseLastN(n, NonBlankLines(file));
  }

  /** Asking for at least as many lines as there are gives all of them, newest first. */
  lemma LastLinesAll(file: string, n: nat)
    requires |NonBlankLines(file)| <= n
    ensures LastLines(file, n) == Reverse(NonBlankLines(file))
  {
  }

  /** The file's first line is part of the tail when every line fits: no
      terminator before it is needed to finish it. */
  lemma {:induction false} FirstLineKept(file: string, n: nat)
    requires NonBlank(Head(file)) && |NonBlankLines(file)| <= n
    ensures |LastLines(file, n)| > 0
    ensures LastLines(file, n)[|LastLines(file, n)| - 1] == Head(file)
  {
    assert SplitRuns(file) == [Head(file)] + Rest(file);
    FilterConcat(NonBlank, [Head(file)], Rest(file));
    var all := NonBlankLines(file);
    assert all[0] == Head(file);
    LastLinesShape(file, n);
  }

  /** Every line of the unfiltered tail is a line of the file. */
  lemma LastLinesFromFile(file: string, n: nat, line: string)
    requires line in LastLines(file, n)
    ensures line in SplitRuns(file) && NonBlank(line)
  {
    ReverseLastNFilterMember(NonBlank, n, SplitRuns(file), line);
  }

  /** The filtered tail holds at most `n` lines, each holding the keyword and
      none of them empty, in newest-first order. */
  lemma MatchingLinesSound(file: string, keyword: string, n: nat)
    requires keyword != []
    ensures var r := MatchingLines(file, keyword, n);
      && |r| <= n
      && r <= MatchingNewestFirst(file, keyword)
      && (forall i :: 0 <= i < |r| ==> Matches(r[i], keyword) && r[i] != [])
  {
    var r := MatchingLines(file, keyword, n);
    forall i | 0 <= i < |r| ensures Matches(r[i], keyword) && r[i] != [] {
      assert Matcher(keyword)(r[i]);
      EmptyNeverMatches(keyword);
    }
  }

  /** Every line of the filtered tail is a line of the file that holds the keyword. */
  lemma MatchingLinesFromFile(file: string, keyword: string, n: nat, line: string)
    requires line in MatchingLines(file, keyword, n)
    ensures line in SplitRuns(file) && Matches(line, keyword)
  {
    TakeFilterReverseMember(Matcher(keyword), n, SplitRuns(file), line);
  }

  /** When fewer than `n` lines come back, no matching line of the file was left out. */
  lemma MatchingLinesComplete(file: string, keyword: string, n: nat, line: string)
    requires |MatchingLines(file, keyword, n)| < n
    requires line in SplitRuns(file) && Matches(line, keyword)
    ensures line in MatchingLines(file, keyword, n)
  {
    var rev := Reverse(SplitRuns(file));
    var i :| 0 <= i < |SplitRuns(file)| && SplitRuns(file)[i] == line;
    assert rev[|rev| - 1 - i] == line;
    FilterKeeps(Matcher(keyword), rev, line);
  }

  /** The first line of the file is still examined: it comes last when it matches
      and every matching line fits. */
  lemma {:induction false} FirstLineMatched(file: string, keyword: string, n: nat)
    requires Matches(Head(file), keyword)
    requires |Filter(Matcher(keyword), SplitRuns(file))| <= n
    ensures var r := MatchingLines(file, keyword, n); |r| > 0 && r[|r| - 1] == Head(file)
  {
    var m := Matcher(keyword);
    var all := MatchingNewestFirst(file, keyword);
    NewestFirstSplit(file, keyword);
    assert Filter(m, [Head(file)]) == [Head(file)];
    FilterReverse(m, SplitRuns(file));
    assert |all| <= n;
    assert MatchingLines(file, keyword, n) == all;
  }

  // ---- the facts the chunked scans rest on ----

  /** The file's lines are those after its first piece, then the first piece. */
  lemma {:induction false} NewestFirstSplit(file: string, keyword: string)
    ensures MatchingNewestFirst(file, keyword)
         == Filter(Matcher(keyword), Reverse(Rest(file))) + Filter(Matcher(keyword), [Head(file)])
  {
    assert SplitRuns(file) == [Head(file)] + Rest(file);
    ReverseConcat([Head(file)], Rest(file));
    FilterConcat(Matcher(keyword), Reverse(Rest(file)), [Head(file)]);
  }

  /** Matching lines are never empty, so empty pieces do not matter to the filter. */
  lemma MatchingIgnoresEmpty(keyword: string, xs: seq<string>)
    requires keyword != []
    ensures Filter(Matcher(keyword), Reverse(xs)) == Reverse(Filter(Matcher(keyword), Filter(NonEmpty, xs)))
  {
    var m := Matcher(keyword);
    forall x | m(x) ensures NonEmpty(x) {
      EmptyNeverMatches(keyword);
    }
    FilterAbsorb(m, NonEmpty, xs);
    FilterReverse(m, xs);
  }

  /** One scan step of the filtered tail: the matching lines of `a + b`, newest
      first, are those of `b` followed by those of `a` joined to `b`'s first piece. */
  lemma {:induction false} GrepStitch(a: string, b: string, keyword: string)
    requires keyword != []
    ensures Filter(Matcher(keyword), Reverse(Rest(a + b)))
         == Filter(Matcher(keyword), Reverse(Rest(b)))
          + Filter(Matcher(keyword), Reverse(Rest(a + Head(b))))
  {
    var m := Matcher(keyword);
    var x, y := Filter(NonEmpty, Rest(a + Head(b))), Filter(NonEmpty, Rest(b));
    MatchingIgnoresEmpty(keyword, Rest(a + b));
    MatchingIgnoresEmpty(keyword, Rest(b));
    MatchingIgnoresEmpty(keyword, Rest(a + Head(b)));
    StitchRest(a, b);
    FilterConcat(m, x, y);
    ReverseConcat(Filter(m, x), Filter(m, y));
  }

  /** Once the scanned suffix `file[q..]` holds `n` matching lines, the rest of the
      file cannot change the newest `n`. */
  lemma {:induction false} GrepWindow(file: string, q: nat, keyword: string, n: nat)
    requires q <= |file| && keyword != []
    requires n <= |Filter(Matcher(keyword), Reverse(Rest(file[q..])))|
    ensures MatchingLines(file, keyword, n) == Take(n, Filter(Matcher(keyword), Reverse(Rest(file[q..]))))
  {
    var m := Matcher(keyword);
    var a, b := file[..q], file[q..];
    assert a + b == file;
    GrepStitch(a, b, keyword);
    NewestFirstSplit(file, keyword);
    TakeOfExtension(n, MatchingNewestFirst(file, keyword), Filter(m, Reverse(Rest(file))),
      Filter(m, Reverse(Rest(b))), Filter(m, Reverse(Rest(a + Head(b)))), Filter(m, [Head(file)]));
  }

  /** Once the scanned suffix `b` holds more than `n` non-blank pieces, the
      earlier text `a` cannot change the last `n`: the only piece of `b` that
      `a` can extend is its first, and it is not among the last `n`. */
  lemma {:induction false} TailWindow(a: string, b: string, n: nat)
    requires |NonBlankLines(b)| > n
    ensures LastN(n, NonBlankLines(a + b)) == LastN(n, NonBlankLines(b))
  {
    RestSuffix(a, b);
    assert SplitRuns(b) == [Head(b)] + Rest(b);
    assert SplitRuns(a + b) == [Head(a + b)] + Rest(a + b);
    LastNFilterSuffix(NonBlank, n, Head(b), Rest(b), Head(a + b), Rest(a + b));
  }

  /** One step of the filtered scan: with the matching lines of the suffix `b`
      collected, joining the chunk `a` to `b`'s first piece and collecting the
      other pieces newest first gives the matching lines of `a + b`; the new
      fragment is `a + b`'s first piece. */
  lemma GrepScanStep(a: string, b: string, keyword: string, n: nat, lines: seq<string>)
    requires keyword != []
    requires lines == Take(n, Filter(Matcher(keyword), Reverse(Rest(b))))
    ensures Head(a + Head(b)) == Head(a + b)
    ensures Take(n, lines + Filter(Matcher(keyword), Reverse(Rest(a + Head(b)))))
         == Take(n, Filter(Matcher(keyword), Reverse(Rest(a + b))))
  {
    StitchHead(a, b);
    GrepStitch(a, b, keyword);
    TakeTake(n, Filter(Matcher(keyword), Reverse(Rest(b))), Filter(Matcher(keyword), Reverse(Rest(a + Head(b)))));
  }

  /** The end of the filtered scan: when the whole file was read or `n` lines are
      collected, testing the left-over fragment completes the newest `n` matching
      lines of the file. */
  lemma GrepFinish(file: string, q: nat, keyword: string, n: nat, lines: seq<string>)
    requires q <= |file| && keyword != []
    requires lines == Take(n, Filter(Matcher(keyword), Reverse(Rest(file[q..]))))
    requires q == 0 || |lines| >= n
    ensures (if Matches(Head(file[q..]), keyword) && |lines| < n then lines + [Head(file[q..])] else lines)
         == MatchingLines(file, keyword, n)
  {
    if q == 0 {
      assert file[q..] == file;
      NewestFirstSplit(file, keyword);
      var x := Filter(Matcher(keyword), Reverse(Rest(file)));
      var y := Filter(Matcher(keyword), [Head(file)]);
      TakeTake(n, x, y);
      assert y == if Matches(Head(file), keyword) then [Head(file)] else [];
    } else {
      GrepWindow(file, q, keyword, n);
    }
  }

  /** The end of the unfiltered scan: when the whole file was read or more than
      `n` non-blank lines were, the last `n` non-blank lines read are the file's. */
  lemma TailFinish(file: string, start: nat, n: nat)
    requires start <= |file|
    requires start == 0 || |NonBlankLines(file[start..])| > n
    ensures LastN(n, NonBlankLines(file[start..])) == LastN(n, NonBlankLines(file))
  {
    if start == 0 {
      assert file[start..] == file;
    } else {
      assert file[..start] + file[start..] == file;
      TailWindow(file[..start], file[start..], n);
    }
  }
}
