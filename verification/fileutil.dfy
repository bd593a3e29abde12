/**
  The pure pieces of `fileutil/file_utils.go`: the extension of a file
  name, the way `ChunkRead` cuts a buffer into lines, and the way
  `FileReader.ReadLine` trims a line and advances its offset. The file
  itself is text: what `ReadAt` filled the buffer with, or what is left to
  read.
 */
module FileUtil {
  import opened Text

  /** `FileExt` (file_utils.go:776-782): from the last dot to the end, or
      nothing when the name has no dot. */
  function FileExt(filename: string): (ext: string)
    ensures ext == "" <==> '.' !in filename
    ensures ext != "" ==> ext[0] == '.' && HasSuffix(filename, ext)
    ensures forall j :: 0 < j < |ext| ==> ext[j] != '.'
  {
    var dotIndex := LastIndex(filename, ".");
    if dotIndex == -1 then
      assert forall j :: 0 <= j < |filename| ==> filename[j] != '.' by {
        forall j | 0 <= j < |filename|
          ensures filename[j] != '.'
        {
          assert !OccursAt(filename, ".", j);
          assert filename[j..j + 1] == [filename[j]];
        }
      }
      ""
    else
      var ext := filename[dotIndex..];
      assert ext[0] == '.' by {
        assert OccursAt(filename, ".", dotIndex);
        assert filename[dotIndex..dotIndex + 1] == [filename[dotIndex]];
      }
      assert forall j :: 0 < j < |ext| ==> ext[j] != '.' by {
        forall j | 0 < j < |ext|
          ensures ext[j] != '.'
        {
          assert !OccursAt(filename, ".", dotIndex + j);
          assert filename[dotIndex + j..dotIndex + j + 1] == [ext[j]];
        }
      }
      ext
  }

  // ---------------------------------------------------------------------
  // ChunkRead
  // ---------------------------------------------------------------------

  predicate NoNewline(s: string) {
    forall j :: 0 <= j < |s| ==> s[j] != '\n'
  }

  /** A text that is empty or ends a line. */
  predicate EndsLine(s: string) {
    s == "" || s[|s| - 1] == '\n'
  }

  /** The lines of a buffer: the text before each newline, then the text
      after the last newline if there is any. */
  function Lines(buf: string): seq<string>
    decreases |buf|
  {
    var i := CharIndex(buf, '\n');
    if i == -1 then
      if buf == "" then [] else [buf]
    else
      [buf[..i]] + Lines(buf[i + 1..])
  }

  /** No line holds a newline. */
  lemma {:induction false} LinesHaveNoNewline(buf: string)
    ensures forall k :: 0 <= k < |Lines(buf)| ==> NoNewline(Lines(buf)[k])
    decreases |buf|
  {
    var i := CharIndex(buf, '\n');
    if i >= 0 {
      LinesHaveNoNewline(buf[i + 1..]);
      assert NoNewline(buf[..i]);
    }
  }

  /** The newline a buffer ends with, if it ends with one. */
  function Terminator(buf: string): string {
    if buf != "" && buf[|buf| - 1] == '\n' then "\n" else ""
  }

  /** Joining the lines with newlines, and putting back the final newline,
      gives the buffer back. */
  lemma {:induction false} LinesJoin(buf: string)
    ensures Join(Lines(buf), "\n") + Terminator(buf) == buf
    decreases |buf|
  {
    var i := CharIndex(buf, '\n');
    if i >= 0 {
      var head, tail := buf[..i], buf[i + 1..];
      LinesJoin(tail);
      CutAt(buf, i);
      Reassemble(buf, head, tail, Lines(tail));
    }
  }

  /** One line put back in front of the lines after it. */
  lemma Reassemble(buf: string, head: string, tail: string, rest: seq<string>)
    requires buf == head + "\n" + tail
    requires Join(rest, "\n") + Terminator(tail) == tail
    requires rest == [] <==> tail == ""
    ensures Join([head] + rest, "\n") + Terminator(buf) == buf
  {
    JoinCons(head, rest, "\n");
    if rest != [] {
      assert buf[|buf| - 1] == tail[|tail| - 1];
    }
  }

  /** A text is what comes before a position, the character there, and
      what comes after. */
  lemma CutAt(s: string, i: nat)
    requires i < |s|
    ensures s == s[..i] + [s[i]] + s[i + 1..]
  {
  }

  lemma JoinCons(head: string, rest: seq<string>, sep: string)
    ensures Join([head] + rest, sep) == if rest == [] then head else head + sep + Join(rest, sep)
  {
    assert ([head] + rest)[1..] == rest;
  }

  /** The lines of two texts, the first of which ends a line, are the lines
      of each. */
  lemma {:induction false} LinesAppend(p: string, t: string)
    requires EndsLine(p)
    ensures Lines(p + t) == Lines(p) + Lines(t)
    decreases |p|
  {
    if p == "" {
      assert p + t == t;
    } else {
      var head, rest := AppendStep(p, t);
      LinesAppend(rest, t);
      Regroup([head], Lines(rest), Lines(t));
    }
  }

  /** One step of `LinesAppend`: the first line of `p` is also the first
      line of `p + t`, and what follows it still ends a line. */
  lemma AppendStep(p: string, t: string) returns (head: string, rest: string)
    requires EndsLine(p) && p != ""
    ensures |rest| < |p| && EndsLine(rest)
    ensures Lines(p) == [head] + Lines(rest)
    ensures Lines(p + t) == [head] + Lines(rest + t)
  {
    var i := CharIndex(p, '\n');
    head, rest := p[..i], p[i + 1..];
    AppendAtNewline(p, t, i);
    LinesStep(p + t, i);
    LinesStep(p, i);
    SuffixEndsLine(p, i + 1);
  }

  /** The first newline of a text that ends a line is also the first
      newline once more text follows it. */
  lemma AppendAtNewline(p: string, t: string, i: int)
    requires EndsLine(p) && p != "" && i == CharIndex(p, '\n')
    ensures 0 <= i < |p|
    ensures CharIndex(p + t, '\n') == i
    ensures (p + t)[..i] == p[..i] && (p + t)[i + 1..] == p[i + 1..] + t
  {
    assert p[|p| - 1] == '\n';
    var j := CharIndex(p + t, '\n');
    assert (p + t)[i] == '\n';
    assert forall k :: 0 <= k < i ==> (p + t)[k] == p[k];
  }

  /** What follows a position of a text that ends a line ends a line too. */
  lemma SuffixEndsLine(p: string, k: nat)
    requires EndsLine(p) && k <= |p|
    ensures EndsLine(p[k..])
  {
  }

  lemma Regroup<T>(a: seq<T>, b: seq<T>, c: seq<T>)
    ensures a + (b + c) == (a + b) + c
  {
  }

  /** A text without a newline is one line when it ends with one, and one
      line on its own when it is not empty. */
  lemma OneLine(q: string)
    requires NoNewline(q)
    ensures Lines(q + "\n") == [q]
    ensures q != "" ==> Lines(q) == [q]
  {
    assert CharIndex(q + "\n", '\n') == |q|;
    assert (q + "\n")[|q| + 1..] == "";
    assert (q + "\n")[..|q|] == q;
  }

  /** `ChunkRead` (file_utils.go:685-698) on the bytes the read returned:
      the loop, then the line left at the end of the chunk. */
  method ChunkLines(buf: string) returns (lines: seq<string>)
    ensures lines == Lines(buf)
  {
    var lineStart;
    lines, lineStart := ScanLines(buf);
    if lineStart < |buf| {
      var line := buf[lineStart..];
      LastLine(buf, lineStart);
      lines := lines + [line];
    } else {
      assert buf[..lineStart] == buf;
    }
  }

  /** The loop of file_utils.go:686-693: one line for each newline, and
      where the text after the last newline starts. */
  method ScanLines(buf: string) returns (lines: seq<string>, lineStart: nat)
    ensures lineStart <= |buf| && EndsLine(buf[..lineStart])
    ensures forall j :: lineStart <= j < |buf| ==> buf[j] != '\n'
    ensures lines == Lines(buf[..lineStart])
  {
    lines := [];
    lineStart := 0;
    var i := 0;
    while i < |buf|
      invariant lineStart <= i <= |buf|
      invariant EndsLine(buf[..lineStart]) && forall j :: lineStart <= j < i ==> buf[j] != '\n'
      invariant lines == Lines(buf[..lineStart])
    {
      if buf[i] == '\n' {
        var line := buf[lineStart..i];
        NextLine(buf, lineStart, i);
        lines := lines + [line];
        lineStart := i + 1;
      }
      i := i + 1;
    }
  }

  lemma NextLine(buf: string, lineStart: nat, i: nat)
    requires lineStart <= i < |buf| && buf[i] == '\n'
    requires EndsLine(buf[..lineStart]) && forall j :: lineStart <= j < i ==> buf[j] != '\n'
    ensures EndsLine(buf[..i + 1])
    ensures Lines(buf[..i + 1]) == Lines(buf[..lineStart]) + [buf[lineStart..i]]
  {
    var p, q := buf[..lineStart], buf[lineStart..i];
    assert NoNewline(q) by {
      forall k | 0 <= k < |q|
        ensures q[k] != '\n'
      {
        assert q[k] == buf[lineStart + k];
      }
    }
    LineCut(buf, lineStart, i);
    LinesAppend(p, q + "\n");
    OneLine(q);
  }

  /** The text up to and including a newline at `i`, cut at `lineStart`. */
  lemma LineCut(buf: string, lineStart: nat, i: nat)
    requires lineStart <= i < |buf| && buf[i] == '\n'
    ensures buf[..i + 1] == buf[..lineStart] + (buf[lineStart..i] + "\n")
  {
  }

  lemma LastLine(buf: string, lineStart: nat)
    requires lineStart < |buf|
    requires EndsLine(buf[..lineStart]) && forall j :: lineStart <= j < |buf| ==> buf[j] != '\n'
    ensures Lines(buf) == Lines(buf[..lineStart]) + [buf[lineStart..]]
  {
    assert buf == buf[..lineStart] + buf[lineStart..];
    LinesAppend(buf[..lineStart], buf[lineStart..]);
    OneLine(buf[lineStart..]);
  }

  // ---------------------------------------------------------------------
  // FileReader.ReadLine
  // ---------------------------------------------------------------------

  predicate IsLineEnd(c: char) {
    c == '\r' || c == '\n'
  }

  /** The trimming loop of `ReadLine` (file_utils.go:49-51): every trailing
      carriage return and newline goes. */
  function TrimLineEnd(data: string): (line: string)
    ensures HasPrefix(data, line)
    ensures line == "" || !IsLineEnd(line[|line| - 1])
    ensures forall j :: |line| <= j < |data| ==> IsLineEnd(data[j])
  {
    if |data| > 0 && IsLineEnd(data[|data| - 1]) then TrimLineEnd(data[..|data| - 1]) else data
  }

  /** What the reader has not read yet, and how far it has read. */
  datatype FileReader = FileReader(rest: string, offset: int)

  datatype ReadLineResult = ReadLineResult(line: string, eof: bool, reader: FileReader)

  /** `ReadLine` (file_utils.go:45-55): `ReadBytes('\n')` takes up to and
      including the next newline, or everything left with `io.EOF`; the
      offset grows by what was taken and the line is returned trimmed. */
  function ReadLine(f: FileReader): (r: ReadLineResult)
    ensures |r.reader.rest| <= |f.rest| && r.reader.offset == f.offset + |f.rest| - |r.reader.rest|
    ensures r.eof ==> r.reader.rest == ""
    ensures !r.eof ==> |r.reader.rest| < |f.rest|
  {
    var i := CharIndex(f.rest, '\n');
    var data := if i == -1 then f.rest else f.rest[..i + 1];
    ReadLineResult(TrimLineEnd(data), i == -1, FileReader(f.rest[|data|..], f.offset + |data|))
  }

  /** What one `ReadLine` takes: everything, at the end of the file, or
      up to and including the next newline; the line is what it took
      without its trailing carriage returns and newlines. */
  lemma ReadLineTakes(f: FileReader)
    ensures var r := ReadLine(f); var n := r.reader.offset - f.offset;
      0 <= n <= |f.rest| && r.reader.rest == f.rest[n..]
      && (r.eof <==> '\n' !in f.rest)
      && (r.eof ==> n == |f.rest|)
      && (!r.eof ==> n > 0 && f.rest[n - 1] == '\n' && '\n' !in f.rest[..n - 1])
      && HasPrefix(f.rest[..n], r.line)
      && (forall j :: |r.line| <= j < n ==> IsLineEnd(f.rest[j]))
      && (r.line == "" || !IsLineEnd(r.line[|r.line| - 1]))
  {
    var i := CharIndex(f.rest, '\n');
    if i >= 0 {
      assert f.rest[..i + 1][..i] == f.rest[..i];
    }
  }

  /** Calling `ReadLine` until it reports `io.EOF`: the lines returned and
      the final offset. */
  function ReadAll(f: FileReader): (r: (seq<string>, int))
    ensures r.1 == f.offset + |f.rest|
    decreases |f.rest|
  {
    var res := ReadLine(f);
    if res.eof then ([res.line], res.reader.offset)
    else
      var more := ReadAll(res.reader);
      ([res.line] + more.0, more.1)
  }

  /** With no carriage returns in the file, reading it line by line gives
      the lines `ChunkRead` cuts it into, plus the empty line `ReadLine`
      returns with `io.EOF` when the file ends a line. */
  predicate NoCarriageReturn(s: string) {
    forall j :: 0 <= j < |s| ==> s[j] != '\r'
  }

  /** With no carriage returns in the file, reading it line by line gives
      the lines `ChunkRead` cuts it into, plus the empty line `ReadLine`
      returns with `io.EOF` when the file ends a line. */
  lemma {:induction false} ReadAllLines(input: string, offset: int)
    requires NoCarriageReturn(input)
    ensures ReadAll(FileReader(input, offset)).0 == Lines(input) + (if EndsLine(input) then [""] else [])
    decreases |input|
  {
    var f := FileReader(input, offset);
    if CharIndex(input, '\n') == -1 {
      assert ReadAll(f).0 == [input] by {
        ReadLinePlain(f);
      }
      assert EndsLine(input) <==> input == "";
    } else {
      var head, tail, next := ReadAllLinesStep(input, offset);
      ReadAllLines(tail, next);
      Regroup([head], Lines(tail), if EndsLine(tail) then [""] else []);
    }
  }

  /** One step of `ReadAllLines`: the first line read is the first line
      cut, and the rest is read on from just after it. */
  lemma ReadAllLinesStep(input: string, offset: int) returns (head: string, tail: string, next: int)
    requires NoCarriageReturn(input) && CharIndex(input, '\n') != -1
    ensures |tail| < |input| && NoCarriageReturn(tail) && (EndsLine(tail) <==> EndsLine(input))
    ensures ReadAll(FileReader(input, offset)).0 == [head] + ReadAll(FileReader(tail, next)).0
    ensures Lines(input) == [head] + Lines(tail)
  {
    var i := CharIndex(input, '\n');
    head, tail, next := input[..i], input[i + 1..], offset + i + 1;
    SuffixKeeps(input, i + 1);
    TailEndsLine(input, i);
    ReadAllStep(FileReader(input, offset), i);
    LinesStep(input, i);
  }

  /** What follows a newline ends a line exactly when the whole text does. */
  lemma TailEndsLine(s: string, i: nat)
    requires i < |s| && s[i] == '\n'
    ensures EndsLine(s[i + 1..]) <==> EndsLine(s)
  {
    if i + 1 < |s| {
      assert s[i + 1..][|s| - i - 2] == s[|s| - 1];
    }
  }

  lemma ReadAllStep(f: FileReader, i: nat)
    requires NoCarriageReturn(f.rest) && i == CharIndex(f.rest, '\n')
    ensures ReadAll(f).0 == [f.rest[..i]] + ReadAll(FileReader(f.rest[i + 1..], f.offset + i + 1)).0
  {
    ReadLinePlain(f);
  }

  lemma LinesStep(s: string, i: nat)
    requires i == CharIndex(s, '\n')
    ensures Lines(s) == [s[..i]] + Lines(s[i + 1..])
  {
  }

  /** A suffix keeps having no carriage return, and ends a line exactly
      when the whole text does, unless it is empty. */
  lemma SuffixKeeps(s: string, k: nat)
    requires k <= |s|
    ensures NoCarriageReturn(s) ==> NoCarriageReturn(s[k..])
    ensures k < |s| ==> (EndsLine(s[k..]) <==> EndsLine(s))
  {
    assert forall j :: 0 <= j < |s| - k ==> s[k..][j] == s[k + j];
  }


  /** Without carriage returns, `ReadLine` returns the text up to the next
      newline and moves past that newline. */
  lemma ReadLinePlain(f: FileReader)
    requires NoCarriageReturn(f.rest)
    ensures var i := CharIndex(f.rest, '\n'); var r := ReadLine(f);
      (i == -1 ==> r.eof && r.line == f.rest && r.reader.rest == "")
      && (i >= 0 ==> !r.eof && r.line == f.rest[..i] && r.reader == FileReader(f.rest[i + 1..], f.offset + i + 1))
  {
    var i := CharIndex(f.rest, '\n');
    if i == -1 {
      if f.rest != "" {
        assert f.rest[|f.rest| - 1] in f.rest;
      }
    } else {
      var data := f.rest[..i + 1];
      assert data[..i] == f.rest[..i];
      if i > 0 {
        assert f.rest[..i][i - 1] == f.rest[i - 1];
      }
    }
  }
}
