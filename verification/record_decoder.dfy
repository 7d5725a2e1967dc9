/** The streaming record reader of the DOI matcher (`iter_datacite_records`):
    decompressed bytes arrive in chunks, a carry-over buffer holds the
    unterminated tail between chunks, each complete line is stripped and, if
    non-empty, handed to the JSON parser. Decompression and JSON parsing are
    outside the model: the stream is given as its decompressed chunks, and the
    parser is a parameter returning `None` on a decode error. */
module RecordDecoder {
  import opened Wrappers
  import opened Text

  const NEWLINE: byte := 10

  /** What one `gz_file.read(chunk_size)` returns before the end of the
      stream: never empty, since an empty read signals the end. */
  type Chunk = s: seq<byte> | |s| > 0 witness [0]

  /** A decompressed archive as the reader sees it: the chunks returned by
      successive reads, then either the end of the stream (an empty read) or,
      when `fails` holds, an error raised by opening, reading or decompressing. */
  datatype ByteStream = ByteStream(chunks: seq<Chunk>, fails: bool)

  function Flatten(chunks: seq<Chunk>): seq<byte>
    decreases |chunks|
  {
    if |chunks| == 0 then [] else Flatten(chunks[..|chunks| - 1]) + chunks[|chunks| - 1]
  }

  /** Joins the parts with `sep` between consecutive parts. */
  function Join(parts: seq<seq<byte>>, sep: byte): seq<byte>
    decreases |parts|
  {
    if |parts| == 0 then []
    else if |parts| == 1 then parts[0]
    else parts[0] + [sep] + Join(parts[1..], sep)
  }

  function Init<T>(s: seq<T>): seq<T>
    requires |s| > 0
  {
    s[..|s| - 1]
  }

  function Last<T>(s: seq<T>): T
    requires |s| > 0
  {
    s[|s| - 1]
  }

  /** Prepends `c` to the first of the pieces `r`. */
  function ConsFirst(c: byte, r: seq<seq<byte>>): (o: seq<seq<byte>>)
    requires |r| >= 1
    ensures |o| == |r|
  {
    [[c] + r[0]] + r[1..]
  }

  /** `bytes.split(sep)`: the maximal separator-free pieces, always at least
      one (the last piece is whatever follows the final separator). */
  function Split(s: seq<byte>, sep: byte): (r: seq<seq<byte>>)
    ensures |r| >= 1
    decreases |s|
  {
    if |s| == 0 then [[]]
    else if s[0] == sep then [[]] + Split(s[1..], sep)
    else ConsFirst(s[0], Split(s[1..], sep))
  }

  lemma JoinConsFirst(c: byte, r: seq<seq<byte>>, sep: byte)
    requires |r| >= 1
    ensures Join(ConsFirst(c, r), sep) == [c] + Join(r, sep)
  {
    var o := ConsFirst(c, r);
    if |r| > 1 {
      assert o[1..] == r[1..];
    }
  }

  /** No piece contains the separator, and joining the pieces back with the
      separator gives the input. */
  lemma {:induction false} SplitSpec(s: seq<byte>, sep: byte)
    ensures forall i :: 0 <= i < |Split(s, sep)| ==> sep !in Split(s, sep)[i]
    ensures Join(Split(s, sep), sep) == s
    decreases |s|
  {
    if |s| > 0 {
      var rest := Split(s[1..], sep);
      SplitSpec(s[1..], sep);
      var r := Split(s, sep);
      if s[0] == sep {
        assert r[1..] == rest;
        assert forall i :: 1 <= i < |r| ==> r[i] == rest[i - 1];
      } else {
        JoinConsFirst(s[0], rest, sep);
        assert forall i :: 1 <= i < |r| ==> r[i] == rest[i];
        assert r[0] == [s[0]] + rest[0];
      }
      assert [s[0]] + s[1..] == s;
    }
  }

  /** The inverse direction: separator-free pieces are recovered exactly by
      splitting their join. */
  lemma {:induction false} SplitJoin(parts: seq<seq<byte>>, sep: byte)
    requires |parts| >= 1
    requires forall i :: 0 <= i < |parts| ==> sep !in parts[i]
    ensures Split(Join(parts, sep), sep) == parts
    decreases |parts|, |parts[0]|
  {
    var p := parts[0];
    if |p| > 0 {
      var parts' := [p[1..]] + parts[1..];
      assert Join(parts, sep) == [p[0]] + Join(parts', sep) by {
        if |parts| > 1 {
          assert parts'[1..] == parts[1..];
        }
      }
      SplitJoin(parts', sep);
      assert ([p[0]] + Join(parts', sep))[1..] == Join(parts', sep);
      assert [p[0]] + p[1..] == p;
      assert parts == [p] + parts[1..];
    } else if |parts| > 1 {
      assert Join(parts, sep) == [sep] + Join(parts[1..], sep);
      SplitJoin(parts[1..], sep);
      assert parts == [[]] + parts[1..];
    }
  }

  lemma ConsFirstAppend(c: byte, a: seq<seq<byte>>, b: seq<seq<byte>>)
    requires |a| >= 1
    ensures ConsFirst(c, a + b) == ConsFirst(c, a) + b
  {
    assert (a + b)[0] == a[0];
    assert (a + b)[1..] == a[1..] + b;
  }

  lemma ConsFirstEnds(c: byte, r: seq<seq<byte>>)
    requires |r| >= 1
    ensures |r| > 1 ==> Init(ConsFirst(c, r)) == ConsFirst(c, Init(r)) && Last(ConsFirst(c, r)) == Last(r)
    ensures |r| == 1 ==> Init(ConsFirst(c, r)) == [] && Last(ConsFirst(c, r)) == [c] + r[0]
  {
    if |r| > 1 {
      assert Init(ConsFirst(c, r)) == [[c] + r[0]] + r[1..|r| - 1];
      assert Init(r)[1..] == r[1..|r| - 1];
    }
  }

  /** Splitting a concatenation: the complete lines of `x`, then the pieces of
      `x`'s unterminated tail followed by `y`. This is why the carry-over
      buffer makes the split independent of where the chunks are cut. */
  lemma {:induction false} SplitAppend(x: seq<byte>, y: seq<byte>, sep: byte)
    ensures Split(x + y, sep) == Init(Split(x, sep)) + Split(Last(Split(x, sep)) + y, sep)
    decreases |x|
  {
    if |x| == 0 {
      assert x + y == y;
    } else {
      assert (x + y)[0] == x[0];
      assert (x + y)[1..] == x[1..] + y;
      SplitAppend(x[1..], y, sep);
      if x[0] == sep {
        SplitAppendSep(Split(x[1..], sep));
      } else {
        SplitAppendCons(x[0], x[1..], y, sep);
      }
    }
  }

  /** The step of `SplitAppend` for a first element that is the separator:
      it closes an empty first line. */
  lemma SplitAppendSep(p: seq<seq<byte>>)
    requires |p| >= 1
    ensures Init([[]] + p) == [[]] + Init(p)
    ensures Last([[]] + p) == Last(p)
  {
    assert ([[]] + p)[..|p|] == [[]] + p[..|p| - 1];
  }

  /** The step of `SplitAppend` for a first element that is not the
      separator, given the split of the remainder. */
  lemma SplitAppendCons(c: byte, x: seq<byte>, y: seq<byte>, sep: byte)
    requires c != sep
    requires Split(x + y, sep) == Init(Split(x, sep)) + Split(Last(Split(x, sep)) + y, sep)
    ensures ConsFirst(c, Split(x + y, sep))
         == Init(ConsFirst(c, Split(x, sep))) + Split(Last(ConsFirst(c, Split(x, sep))) + y, sep)
  {
    var p := Split(x, sep);
    var q := Split(Last(p) + y, sep);
    if |p| > 1 {
      SplitAppendConsMany(c, p, q);
    } else {
      SplitAppendConsOne(c, p, y, sep);
      assert Init(p) + q == q;
      assert Last(p) == p[0];
    }
  }

  /** The step when `x` holds a separator: `c` joins the first complete
      line, and the unterminated tail stays the same. */
  lemma SplitAppendConsMany(c: byte, p: seq<seq<byte>>, q: seq<seq<byte>>)
    requires |p| > 1
    ensures ConsFirst(c, Init(p) + q) == Init(ConsFirst(c, p)) + q
    ensures Last(ConsFirst(c, p)) == Last(p)
  {
    ConsFirstEnds(c, p);
    ConsFirstAppend(c, Init(p), q);
  }

  /** The step when `x` holds no separator: no line is complete, and `c`
      starts the unterminated tail. */
  lemma SplitAppendConsOne(c: byte, p: seq<seq<byte>>, y: seq<byte>, sep: byte)
    requires |p| == 1 && c != sep
    ensures Init(ConsFirst(c, p)) == []
    ensures Split(Last(ConsFirst(c, p)) + y, sep) == ConsFirst(c, Split(p[0] + y, sep))
  {
    ConsFirstEnds(c, p);
    var line := p[0] + y;
    var t := [c] + line;
    assert Last(ConsFirst(c, p)) + y == t;
    assert t[0] == c && t[1..] == line;
  }

  /** What one line contributes: nothing if it is blank after `strip()` or if
      it fails to parse, else the parsed record. */
  function DecodeLine<R>(line: seq<byte>, parse: seq<byte> -> Option<R>): seq<R>
  {
    var stripped := StripBytes(line);
    if |stripped| == 0 then []
    else match parse(stripped)
      case Some(record) => [record]
      case None => []
  }

  function DecodeLines<R>(lines: seq<seq<byte>>, parse: seq<byte> -> Option<R>): seq<R>
    decreases |lines|
  {
    if |lines| == 0 then [] else DecodeLine(lines[0], parse) + DecodeLines(lines[1..], parse)
  }

  /** Records come out line by line: decoding a concatenation of line lists
      concatenates the records. */
  lemma {:induction false} DecodeLinesAppend<R>(a: seq<seq<byte>>, b: seq<seq<byte>>, parse: seq<byte> -> Option<R>)
    ensures DecodeLines(a + b, parse) == DecodeLines(a, parse) + DecodeLines(b, parse)
    decreases |a|
  {
    if |a| == 0 {
      assert a + b == b;
    } else {
      assert (a + b)[1..] == a[1..] + b;
      DecodeLinesAppend(a[1..], b, parse);
    }
  }

  /** A line that fails to parse is skipped and the lines after it are still
      decoded. */
  lemma MalformedLineSkipped<R>(before: seq<seq<byte>>, line: seq<byte>, after: seq<seq<byte>>,
                                parse: seq<byte> -> Option<R>)
    requires parse(StripBytes(line)).None?
    ensures DecodeLines(before + [line] + after, parse) == DecodeLines(before, parse) + DecodeLines(after, parse)
  {
    DecodeLinesAppend(before + [line], after, parse);
    DecodeLinesAppend(before, [line], parse);
    DecodeSingleLine(line, parse);
    assert DecodeLine(line, parse) == [];
    assert DecodeLines(before, parse) + [] == DecodeLines(before, parse);
  }

  lemma DecodeSingleLine<R>(line: seq<byte>, parse: seq<byte> -> Option<R>)
    ensures DecodeLines([line], parse) == DecodeLine(line, parse)
  {
    assert [line][1..] == [];
    assert DecodeLine(line, parse) + [] == DecodeLine(line, parse);
  }

  /** The lines the reader hands on: all `\n`-separated pieces of the whole
      decompressed stream, the final unterminated piece included, when the
      stream ends normally; only the `\n`-terminated ones when a read fails,
      since the carry-over buffer is then dropped. */
  function StreamLines(stream: ByteStream): seq<seq<byte>> {
    var pieces := Split(Flatten(stream.chunks), NEWLINE);
    if stream.fails then Init(pieces) else pieces
  }

  /** Feeding one more chunk: the complete lines of the longer prefix are
      those already complete plus the complete lines of buffer-and-chunk,
      whose tail becomes the new buffer. */
  lemma ChunkStep(consumed: seq<byte>, chunk: seq<byte>)
    ensures var lines := Split(Last(Split(consumed, NEWLINE)) + chunk, NEWLINE);
            && Init(Split(consumed + chunk, NEWLINE)) == Init(Split(consumed, NEWLINE)) + Init(lines)
            && Last(Split(consumed + chunk, NEWLINE)) == Last(lines)
  {
    SplitAppend(consumed, chunk, NEWLINE);
  }

  /** The inner loop of the reader: decodes the complete lines split off one
      chunk, in order. */
  method DecodeCompleteLines<R>(lines: seq<seq<byte>>, parse: seq<byte> -> Option<R>) returns (records: seq<R>)
    ensures records == DecodeLines(lines, parse)
  {
    records := [];
    var j := 0;
    while j < |lines|
      invariant 0 <= j <= |lines|
      invariant records == DecodeLines(lines[..j], parse)
    {
      assert lines[..j + 1] == lines[..j] + [lines[j]];
      DecodeLinesAppend(lines[..j], [lines[j]], parse);
      DecodeSingleLine(lines[j], parse);
      records := records + DecodeLine(lines[j], parse);
      j := j + 1;
    }
    assert lines[..j] == lines;
  }

  /** One chunk read: appends it to the carried-over buffer, decodes every
      line the buffer now completes, and keeps the unfinished tail. */
  method FeedChunk<R>(buffer: seq<byte>, chunk: seq<byte>, parse: seq<byte> -> Option<R>)
    returns (rest: seq<byte>, decoded: seq<R>)
    ensures rest == Last(Split(buffer + chunk, NEWLINE))
    ensures decoded == DecodeLines(Init(Split(buffer + chunk, NEWLINE)), parse)
    ensures NEWLINE !in rest
  {
    var lines := Split(buffer + chunk, NEWLINE);
    SplitSpec(buffer + chunk, NEWLINE);
    rest := lines[|lines| - 1];
    decoded := DecodeCompleteLines(lines[..|lines| - 1], parse);
  }

  /** At the end of a stream read without error, the buffer holds the last
      line, which is decoded as well. */
  lemma FinalLine<R>(bytes: seq<byte>, parse: seq<byte> -> Option<R>)
    ensures DecodeLines(Split(bytes, NEWLINE), parse)
         == DecodeLines(Init(Split(bytes, NEWLINE)), parse) + DecodeLine(Last(Split(bytes, NEWLINE)), parse)
  {
    var pieces := Split(bytes, NEWLINE);
    assert pieces == Init(pieces) + [Last(pieces)];
    DecodeLinesAppend(Init(pieces), [Last(pieces)], parse);
    DecodeSingleLine(Last(pieces), parse);
  }

  /** `iter_datacite_records`: the records of the stream in order. The result
      depends on the chunks only through their concatenation, so it is the
      same for every way of cutting the bytes into chunks; blank and
      malformed lines are skipped; a read error ends the records early. */
  method DecodeRecords<R>(stream: ByteStream, parse: seq<byte> -> Option<R>) returns (records: seq<R>)
    ensures records == DecodeLines(StreamLines(stream), parse)
  {
    var buffer: seq<byte> := [];
    records := [];
    var i := 0;
    while i < |stream.chunks|
      invariant 0 <= i <= |stream.chunks|
      invariant buffer == Last(Split(Flatten(stream.chunks[..i]), NEWLINE))
      invariant records == DecodeLines(Init(Split(Flatten(stream.chunks[..i]), NEWLINE)), parse)
    {
      ghost var consumed := Flatten(stream.chunks[..i]);
      assert stream.chunks[..i + 1][..i] == stream.chunks[..i];
      assert Flatten(stream.chunks[..i + 1]) == consumed + stream.chunks[i];
      ChunkStep(consumed, stream.chunks[i]);
      DecodeLinesAppend(Init(Split(consumed, NEWLINE)), Init(Split(buffer + stream.chunks[i], NEWLINE)), parse);
      var decoded;
      buffer, decoded := FeedChunk(buffer, stream.chunks[i], parse);
      records := records + decoded;
      i := i + 1;
    }
    assert stream.chunks[..i] == stream.chunks;
    if !stream.fails {
      FinalLine(Flatten(stream.chunks), parse);
      records := records + DecodeLine(buffer, parse);
    }
  }
}
