/** The log service: tailing a log file by reading it backward in chunks. The
    file is its contents, a string of single-byte characters; a read at a
    position is a slice of it. */
module LogService {
  import opened Seqs
  import opened Lines
  import opened TailSpec

  /** DEFAULT_BUFFER_CHUNK_SIZE_BYTES: bytes read per step. */
  const DefaultChunkSize: int := 1024

  /** DEFAULT_TAIL_ENTRIES: lines returned when no count is given. */
  const DefaultTailEntries: int := 10

  datatype Option<T> = None | Some(value: T)

  /** TailLogOptions; the file's contents stand for its path. */
  datatype TailLogOptions = TailLogOptions(file: string, n: Option<int>, filterKeyword: Option<string>)

  /** The count after the default of `n = DEFAULT_TAIL_ENTRIES` is applied. */
  function RequestedLines(options: TailLogOptions): (n: int)
    ensures options.n.None? ==> n == DefaultTailEntries
    ensures options.n.Some? ==> n == options.n.value
  {
    match options.n
    case None => DefaultTailEntries
    case Some(k) => k
  }

  /** The keyword that selects the filtered path: present and non-empty
      (a truthy string), otherwise the empty string. */
  function EffectiveKeyword(options: TailLogOptions): (keyword: string)
    ensures keyword != [] <==> options.filterKeyword.Some? && options.filterKeyword.value != []
    ensures keyword != [] ==> keyword == options.filterKeyword.value
  {
    match options.filterKeyword
    case None => ""
    case Some(k) => k
  }

  function Min(x: int, y: int): int {
    if x <= y then x else y
  }

  /** `_readFileChunk`: the `min(chunkSize, position)` bytes ending at `position`;
      never anything before offset 0. */
  function ReadFileChunk(file: string, position: int, chunkSize: int): (chunk: string)
    requires 0 < position <= |file| && 0 < chunkSize
    ensures |chunk| == Min(chunkSize, position) && 0 < |chunk|
    ensures chunk == file[position - |chunk|..position]
  {
    var actualChunkSize := Min(chunkSize, position);
    var cursor := position - actualChunkSize;
    file[cursor..position]
  }

  /** The start of what has been read when the next read would end at `position`. */
  function ReadFrom(position: int): nat {
    if position > 0 then position else 0
  }

  /** `_tailLogNoFilter`: prepend chunks until more than `n` non-blank lines have
      been read or the start of the file is reached, then return the last `n`
      non-blank lines, newest first. The result does not depend on the chunk size. */
  method TailLogNoFilter(file: string, n: int, chunkSize: int) returns (lines: seq<string>)
    requires 0 < n && 0 < chunkSize
    ensures lines == LastLines(file, n)
  {
    var position: int := |file|;
    var readData: string := "";
    ghost var start: nat := |file|;
    while position > 0
      invariant position <= |file|
      invariant start == ReadFrom(position)
      invariant readData == file[start..]
      decreases position
    {
      var currentChunk := ReadFileChunk(file, position, chunkSize);
      SliceJoin(file, position - |currentChunk|, position);
      readData := currentChunk + readData;
      start := position - |currentChunk|;
      if |Filter(NonBlank, SplitRuns(readData))| > n {
        break;
      }
      position := position - chunkSize;
    }
    // readData is all of the file, or a suffix holding more than n non-blank lines
    TailFinish(file, start, n);
    var nonBlank := Filter(NonBlank, SplitRuns(readData));
    lines := Reverse(LastN(n, nonBlank));
  }

  /** The `forEach` over a chunk's reversed lines: push each line that holds the
      keyword while fewer than `n` have been collected. */
  method CollectMatching(lines: seq<string>, candidates: seq<string>, keyword: string, n: int)
    returns (collected: seq<string>)
    requires 0 < n && |lines| <= n
    ensures collected == Take(n, lines + Filter(Matcher(keyword), candidates))
  {
    collected := lines;
    for i := 0 to |candidates|
      invariant collected == Take(n, lines + Filter(Matcher(keyword), candidates[..i]))
    {
      var line := candidates[i];
      assert candidates[..i + 1] == candidates[..i] + [line];
      TakeFilterSnoc(Matcher(keyword), n, lines, candidates[..i], line, collected);
      if Matches(line, keyword) && |collected| < n {
        collected := collected + [line];
      }
    }
    assert candidates[..|candidates|] == candidates;
  }

  /** `_grepLinesFromEnd`: read chunks backward, join each to the fragment carried
      from the chunk after it, keep the first piece as the new fragment and scan
      the other pieces newest first; after the loop, test the fragment too. The
      result is the newest `n` lines holding the keyword, for every chunk size. */
  method GrepLinesFromEnd(file: string, n: int, keyword: string, chunkSize: int)
    returns (lines: seq<string>)
    requires 0 < n && keyword != [] && 0 < chunkSize
    ensures lines == MatchingLines(file, keyword, n)
  {
    var position: int := |file|;
    lines := [];
    var lastFragment: string := "";
    assert file[|file|..] == [];
    while position > 0 && |lines| < n
      invariant position <= |file|
      invariant lastFragment == Head(file[ReadFrom(position)..])
      invariant lines == Take(n, Filter(Matcher(keyword), Reverse(Rest(file[ReadFrom(position)..]))))
      decreases position
    {
      ghost var b := file[position..];
      var currentChunk := ReadFileChunk(file, position, chunkSize);
      SliceJoin(file, position - |currentChunk|, position);
      position := position - chunkSize;
      assert currentChunk + b == file[ReadFrom(position)..];
      var combinedChunk := currentChunk + lastFragment;
      var chunkLines := SplitRuns(combinedChunk);
      lastFragment := chunkLines[0];
      chunkLines := chunkLines[1..];
      GrepScanStep(currentChunk, b, keyword, n, lines);
      lines := CollectMatching(lines, Reverse(chunkLines), keyword, n);
    }
    GrepFinish(file, ReadFrom(position), keyword, n, lines);
    if Matches(lastFragment, keyword) && |lines| < n {
      lines := lines + [lastFragment];
    }
  }

  /** `tailLog`: apply the default count, return nothing for a count that is not
      positive, and take the filtered path only for a non-empty keyword. */
  method TailLog(options: TailLogOptions, chunkSize: int) returns (lines: seq<string>)
    requires 0 < chunkSize
    ensures lines == Tail(options.file, RequestedLines(options), EffectiveKeyword(options))
    ensures RequestedLines(options) <= 0 ==> lines == []
    ensures |lines| <= if RequestedLines(options) <= 0 then 0 else RequestedLines(options)
  {
    var n := RequestedLines(options);
    if n <= 0 {
      return [];
    }
    match options.filterKeyword
    case Some(keyword) =>
      if keyword != [] {
        lines := GrepLinesFromEnd(options.file, n, keyword, chunkSize);
        MatchingLinesSound(options.file, keyword, n);
      } else {
        lines := TailLogNoFilter(options.file, n, chunkSize);
        LastLinesShape(options.file, n);
      }
    case None =>
      lines := TailLogNoFilter(options.file, n, chunkSize);
      LastLinesShape(options.file, n);
  }

  /** The chunk size is only a performance parameter: any two give the same lines. */
  method ChunkSizeIrrelevant(options: TailLogOptions, chunkSize1: int, chunkSize2: int)
    returns (lines1: seq<string>, lines2: seq<string>)
    requires 0 < chunkSize1 && 0 < chunkSize2
    ensures lines1 == lines2
  {
    lines1 := TailLog(options, chunkSize1);
    lines2 := TailLog(options, chunkSize2);
  }
}
