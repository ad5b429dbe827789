/** The per-file scan a `worker` runs (utils/search.go:185-227), without the
    channels: a file is given as the sequence of its lines, already split, and
    the scan returns the result records it would send. */
module LineScan {
  import opened BoyerMoore

  /** A result the worker reports: a matching line of a text file, or the
      single notice that a binary file matches. */
  datatype Record =
    | TextMatch(path: string, lineNumber: int, line: seq<byte>)
    | BinaryMatch(path: string)

  /** What opening a file gave the worker. */
  datatype OpenResult = Opened(lines: seq<seq<byte>>) | OpenFailed

  /** The finder reports a match in `line`. */
  ghost predicate LineMatches(p: seq<byte>, line: seq<byte>) {
    FirstOccurrence(p, line) != -1
  }

  /** A file is binary when its first line holds a zero byte; no other line
      is looked at. */
  ghost predicate IsBinary(lines: seq<seq<byte>>) {
    |lines| > 0 && 0 in lines[0]
  }

  /** The records a text file yields: one per matching line, numbered from 1,
      in line order. */
  ghost function TextRecords(p: seq<byte>, path: string, lines: seq<seq<byte>>): seq<Record>
    decreases |lines|
  {
    if |lines| == 0 then []
    else
      var n := |lines|;
      TextRecords(p, path, lines[..n - 1]) +
      (if LineMatches(p, lines[n - 1]) then [TextMatch(path, n, lines[n - 1])] else [])
  }

  /** The records the scan of one file yields: for a binary file a single
      `BinaryMatch` if any line matches, for a text file its `TextRecords`. */
  ghost function ScanRecords(p: seq<byte>, path: string, lines: seq<seq<byte>>): seq<Record> {
    if IsBinary(lines) then
      if exists k :: 0 <= k < |lines| && LineMatches(p, lines[k]) then [BinaryMatch(path)] else []
    else TextRecords(p, path, lines)
  }

  /** The scan loop of `worker` for one opened file: counts lines from 1,
      classifies the file on its first line, asks the finder about each line,
      and stops at the first match of a binary file. */
  method ScanFile(finder: StringFinder, path: string, lines: seq<seq<byte>>) returns (records: seq<Record>)
    requires finder.Valid()
    ensures records == ScanRecords(finder.pattern, path, lines)
  {
    records := [];
    var lineNumber := 1;
    var isBinary := false;
    var k := 0;
    while k < |lines|
      invariant 0 <= k <= |lines| && lineNumber == k + 1
      invariant isBinary <==> k > 0 && IsBinary(lines)
      invariant isBinary ==> records == [] && forall m :: 0 <= m < k ==> !LineMatches(finder.pattern, lines[m])
      invariant !isBinary ==> records == TextRecords(finder.pattern, path, lines[..k])
    {
      var text := lines[k];
      if lineNumber == 1 {
        if 0 in text {
          isBinary := true;
        }
      }
      var r := finder.Next(text);
      if r != -1 {
        if isBinary {
          records := records + [BinaryMatch(path)];
          break;
        } else {
          records := records + [TextMatch(path, lineNumber, text)];
        }
      }
      assert lines[..k + 1][..k] == lines[..k];
      k := k + 1;
      lineNumber := lineNumber + 1;
    }
    assert k == |lines| ==> lines[..k] == lines;
  }

  /** The records a worker yields for its files, in the order it takes them;
      a file that fails to open yields none. */
  ghost function WorkerRecords(p: seq<byte>, files: seq<(string, OpenResult)>): seq<Record>
    decreases |files|
  {
    if |files| == 0 then []
    else
      var n := |files|;
      WorkerRecords(p, files[..n - 1]) +
      (match files[n - 1].1
       case Opened(lines) => ScanRecords(p, files[n - 1].0, lines)
       case OpenFailed => [])
  }

  /** `worker` run on its own: builds one finder for the pattern, then scans
      each file it is handed, skipping those that fail to open. */
  method Worker(pattern: seq<byte>, files: seq<(string, OpenResult)>) returns (records: seq<Record>)
    ensures records == WorkerRecords(pattern, files)
  {
    var finder := new StringFinder(pattern);
    records := [];
    var k := 0;
    while k < |files|
      invariant 0 <= k <= |files|
      invariant finder.Valid() && finder.pattern == pattern
      invariant records == WorkerRecords(pattern, files[..k])
    {
      var (file, outcome) := files[k];
      match outcome {
        case OpenFailed =>
        case Opened(lines) =>
          var fileRecords := ScanFile(finder, file, lines);
          records := records + fileRecords;
      }
      assert files[..k + 1][..k] == files[..k];
      k := k + 1;
    }
    assert files[..k] == files;
  }

  // ---------------------------------------------------------------------------
  // What the scan promises
  // ---------------------------------------------------------------------------

  /** A text file yields exactly one `TextMatch(n, line n)` for each line `n`
      (counted from 1) that the finder matches, and nothing else, in
      increasing line order. */
  lemma {:induction false} TextRecordsExactly(p: seq<byte>, path: string, lines: seq<seq<byte>>)
    decreases |lines|
    ensures forall r :: r in TextRecords(p, path, lines) ==>
              r.TextMatch? && r.path == path && 1 <= r.lineNumber <= |lines| &&
              r.line == lines[r.lineNumber - 1] && LineMatches(p, r.line)
    ensures forall m :: 0 <= m < |lines| ==>
              (LineMatches(p, lines[m]) <==> TextMatch(path, m + 1, lines[m]) in TextRecords(p, path, lines))
    ensures forall a, b :: 0 <= a < b < |TextRecords(p, path, lines)| ==>
              TextRecords(p, path, lines)[a].lineNumber < TextRecords(p, path, lines)[b].lineNumber
  {
    if |lines| > 0 {
      var n := |lines|;
      var front := lines[..n - 1];
      TextRecordsExactly(p, path, front);
      var R := TextRecords(p, path, lines);
      var F := TextRecords(p, path, front);
      assert forall m :: 0 <= m < n - 1 ==> front[m] == lines[m];
      forall a, b | 0 <= a < b < |R|
        ensures R[a].lineNumber < R[b].lineNumber
      {
        if b >= |F| {
          assert R[a] in F;
        }
      }
    }
  }

  /** A binary file yields at most one record, a `BinaryMatch`, and yields it
      exactly when some line matches. */
  lemma BinaryFileRecords(p: seq<byte>, path: string, lines: seq<seq<byte>>)
    requires IsBinary(lines)
    ensures |ScanRecords(p, path, lines)| <= 1
    ensures forall r :: r in ScanRecords(p, path, lines) ==> r == BinaryMatch(path)
    ensures |ScanRecords(p, path, lines)| == 1 <==> exists k :: 0 <= k < |lines| && LineMatches(p, lines[k])
  {
  }

  /** A text file never yields a `BinaryMatch`. */
  lemma TextFileRecords(p: seq<byte>, path: string, lines: seq<seq<byte>>)
    requires !IsBinary(lines)
    ensures forall r :: r in ScanRecords(p, path, lines) ==> r.TextMatch?
  {
    TextRecordsExactly(p, path, lines);
  }

  /** Only the first line decides how a file is reported: whatever lines
      follow it, a first line with a zero byte makes the scan yield at most one
      `BinaryMatch` and nothing else, and a first line without one makes it
      yield only `TextMatch` records. */
  lemma BinaryDecidedByFirstLine(p: seq<byte>, path: string, first: seq<byte>, more: seq<seq<byte>>)
    ensures 0 in first ==>
              |ScanRecords(p, path, [first] + more)| <= 1 &&
              forall r :: r in ScanRecords(p, path, [first] + more) ==> r == BinaryMatch(path)
    ensures 0 !in first ==>
              forall r :: r in ScanRecords(p, path, [first] + more) ==> r.TextMatch?
  {
    assert ([first] + more)[0] == first;
    if 0 !in first {
      TextFileRecords(p, path, [first] + more);
    }
  }

  /** An empty file yields nothing. */
  lemma EmptyFileRecords(p: seq<byte>, path: string)
    ensures ScanRecords(p, path, []) == []
  {
  }
}
