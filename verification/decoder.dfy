/** The transform inside `decode_file` of decode_payload.py: split the text
    into lines, strip each, drop the blank ones and (unless `--keep-headers`)
    every line mentioning a certificate marker, concatenate the rest and
    Base64-decode the result. */
module Decoder {
  import opened Wrappers
  import opened Ascii
  import opened Text
  import opened Paths
  import Base64

  /** A line the header filter drops: it mentions `BEGIN CERTIFICATE` or
      `END CERTIFICATE` anywhere. */
  predicate IsMarkerLine(line: string) {
    Contains(line, "BEGIN CERTIFICATE") || Contains(line, "END CERTIFICATE")
  }

  /** Whether the loop appends an already stripped line. */
  predicate Keeps(line: string, removeHeaders: bool) {
    line != [] && !(removeHeaders && IsMarkerLine(line))
  }

  /** `filtered_lines`: the stripped lines the loop keeps, in input order. */
  function FilterLines(lines: seq<string>, removeHeaders: bool): (r: seq<string>)
    ensures |r| <= |lines|
    decreases |lines|
  {
    if |lines| == 0 then []
    else
      var line := Strip(lines[0]);
      (if Keeps(line, removeHeaders) then [line] else []) + FilterLines(lines[1..], removeHeaders)
  }

  /** `base64_string`: the kept lines of `content`, concatenated. Stripping
      and dropping lines only remove characters, so it is never longer than
      the text it comes from. */
  function Payload(content: string, removeHeaders: bool): (r: string)
    ensures |r| <= |content|
  {
    var lines := Split(content, '\n');
    FilterShorter(lines, removeHeaders);
    JoinSplit(content, '\n');
    Concat(FilterLines(lines, removeHeaders))
  }

  /** Filtering never lengthens the concatenation of the lines. */
  lemma {:induction false} FilterShorter(lines: seq<string>, removeHeaders: bool)
    ensures |Concat(FilterLines(lines, removeHeaders))| <= |Concat(lines)|
    decreases |lines|
  {
    if |lines| > 0 {
      FilterShorter(lines[1..], removeHeaders);
      var line := Strip(lines[0]);
      var rest := FilterLines(lines[1..], removeHeaders);
      TrimStartDropsSpaces(lines[0]);
      TrimEndDropsSpaces(TrimStart(lines[0]));
      assert |line| <= |lines[0]|;
      if Keeps(line, removeHeaders) {
        var r := [line] + rest;
        assert FilterLines(lines, removeHeaders) == r;
        assert r[1..] == rest;
        assert Concat(r) == line + Concat(rest);
      } else {
        assert FilterLines(lines, removeHeaders) == rest;
      }
    }
  }

  /** The transform of `decode_file` on the text it has read: the decoded
      bytes, or `None` where `b64decode` raises. What it yields re-encodes
      to exactly the payload. */
  function DecodeText(content: string, removeHeaders: bool): (r: Option<seq<byte>>)
    ensures r.Some? ==> Base64.Encode(r.value) == Payload(content, removeHeaders)
  {
    var r := Base64.Decode(Payload(content, removeHeaders));
    if r.Some? then Base64.EncodeDecode(Payload(content, removeHeaders)); r else r
  }

  /** Decoding fails exactly when no byte string encodes to the payload. */
  lemma DecodeTextFails(content: string, removeHeaders: bool)
    ensures DecodeText(content, removeHeaders).None? <==>
      forall data :: Base64.Encode(data) != Payload(content, removeHeaders)
  {
    var p := Payload(content, removeHeaders);
    if DecodeText(content, removeHeaders).None? {
      forall data ensures Base64.Encode(data) != p {
        Base64.DecodeIffEncoding(p, data);
      }
    } else {
      var data := DecodeText(content, removeHeaders).value;
      assert Base64.Encode(data) == p;
    }
  }

  /** The default output path: the input path without its extension, with
      `_decoded` appended. It never names the input itself, since an
      extension is empty or starts with a dot. */
  function OutputName(input: string): (r: string)
    ensures r != input
    ensures SplitExt(input).0 <= r
  {
    var (stem, ext) := SplitExt(input);
    var r := stem + "_decoded";
    assert ext != "_decoded" by {
      assert ext == [] || ext[0] != '_';
    }
    assert ext == input[|stem|..] && "_decoded" == r[|stem|..];
    r
  }

  /** A whole `decode_file` run on the bytes of the input file: the file it
      writes, or `None` where the source returns False. A file that is not
      ASCII, or whose payload is not Base64, yields no write at all. */
  function DecodeFile(input: string, raw: seq<byte>, output: Option<string>,
                      removeHeaders: bool): (r: Option<FileWrite>)
    ensures r.Some? ==> exists content ::
      && BytesToText(raw) == Some(content)
      && Base64.Encode(r.value.data) == Payload(UniversalNewlines(content), removeHeaders)
    ensures r.Some? && output.Some? ==> r.value.path == output.value
    ensures r.Some? && output.None? ==> r.value.path == OutputName(input)
  {
    match BytesToText(raw)
    case None => None
    case Some(content) =>
      match DecodeText(UniversalNewlines(content), removeHeaders)
      case None => None
      case Some(data) =>
        Some(FileWrite(if output.Some? then output.value else OutputName(input), data))
  }

  /** A readable file without carriage returns decodes to a write of exactly
      what its text decodes to; a text that does not decode writes nothing. */
  lemma DecodeFileOfText(input: string, raw: seq<byte>, content: string, removeHeaders: bool)
    requires BytesToText(raw) == Some(content) && '\r' !in content
    ensures DecodeText(content, removeHeaders).None? ==> DecodeFile(input, raw, None, removeHeaders).None?
    ensures DecodeText(content, removeHeaders).Some? ==>
      DecodeFile(input, raw, None, removeHeaders) ==
        Some(FileWrite(OutputName(input), DecodeText(content, removeHeaders).value))
  {
    UniversalNewlinesIdentity(content);
  }

  /** What the loop guarantees of every line it keeps: non-empty, without
      surrounding whitespace, and free of markers when headers are removed. */
  predicate Clean(line: string, removeHeaders: bool) {
    line != [] && Trimmed(line) && !(removeHeaders && IsMarkerLine(line))
  }

  /** Every line of `lines` is clean. */
  predicate AllClean(lines: seq<string>, removeHeaders: bool)
    decreases |lines|
  {
    |lines| == 0 || (Clean(lines[0], removeHeaders) && AllClean(lines[1..], removeHeaders))
  }

  /** Every kept line is clean. */
  lemma {:induction false} FilterLinesClean(lines: seq<string>, removeHeaders: bool)
    ensures AllClean(FilterLines(lines, removeHeaders), removeHeaders)
    decreases |lines|
  {
    if |lines| > 0 {
      FilterLinesClean(lines[1..], removeHeaders);
      var line := Strip(lines[0]);
      var rest := FilterLines(lines[1..], removeHeaders);
      if Keeps(line, removeHeaders) {
        var r := [line] + rest;
        assert FilterLines(lines, removeHeaders) == r;
        assert r[1..] == rest;
      } else {
        assert FilterLines(lines, removeHeaders) == rest;
      }
    }
  }

  /** The same fact line by line: the kept line at any index is clean. */
  lemma {:induction false} AllCleanAt(lines: seq<string>, removeHeaders: bool, i: int)
    requires AllClean(lines, removeHeaders) && 0 <= i < |lines|
    ensures Clean(lines[i], removeHeaders)
    decreases i
  {
    if i > 0 {
      AllCleanAt(lines[1..], removeHeaders, i - 1);
    }
  }

  /** Filtering works line by line: it distributes over appending. */
  lemma {:induction false} FilterAppend(a: seq<string>, b: seq<string>, removeHeaders: bool)
    ensures FilterLines(a + b, removeHeaders) == FilterLines(a, removeHeaders) + FilterLines(b, removeHeaders)
    decreases |a|
  {
    if |a| > 0 {
      assert (a + b)[1..] == a[1..] + b;
      FilterAppend(a[1..], b, removeHeaders);
    } else {
      assert a + b == b;
    }
  }

  /** A line survives exactly when some input line strips to it and the
      loop keeps it. */
  lemma {:induction false} FilterMember(lines: seq<string>, removeHeaders: bool, x: string)
    ensures x in FilterLines(lines, removeHeaders) <==>
      Keeps(x, removeHeaders) && exists i :: 0 <= i < |lines| && Strip(lines[i]) == x
    decreases |lines|
  {
    if |lines| > 0 {
      FilterMember(lines[1..], removeHeaders, x);
      var line := Strip(lines[0]);
      var head := if Keeps(line, removeHeaders) then [line] else [];
      var rest := FilterLines(lines[1..], removeHeaders);
      assert FilterLines(lines, removeHeaders) == head + rest;
      assert x in head + rest <==> x in head || x in rest;
      assert x in head <==> Keeps(x, removeHeaders) && line == x;
      if exists i :: 0 <= i < |lines| - 1 && Strip(lines[1..][i]) == x {
        var i :| 0 <= i < |lines| - 1 && Strip(lines[1..][i]) == x;
        assert Strip(lines[i + 1]) == x;
      }
      if exists i :: 0 <= i < |lines| && Strip(lines[i]) == x {
        var i :| 0 <= i < |lines| && Strip(lines[i]) == x;
        if i > 0 {
          assert Strip(lines[1..][i - 1]) == x;
        }
      }
    }
  }

  /** Each input line after stripping, in order. */
  function StripAll(lines: seq<string>): (r: seq<string>)
    ensures |r| == |lines|
    decreases |lines|
  {
    if |lines| == 0 then [] else [Strip(lines[0])] + StripAll(lines[1..])
  }

  lemma {:induction false} StripAllAt(lines: seq<string>, i: int)
    requires 0 <= i < |lines|
    ensures StripAll(lines)[i] == Strip(lines[i])
    decreases i
  {
    var r := StripAll(lines);
    assert r == [Strip(lines[0])] + StripAll(lines[1..]);
    if i > 0 {
      StripAllAt(lines[1..], i - 1);
      assert r[i] == StripAll(lines[1..])[i - 1];
    }
  }

  /** `xs` can be obtained from `ys` by deleting elements. */
  predicate IsSubsequence(xs: seq<string>, ys: seq<string>)
    decreases |ys|
  {
    |xs| == 0 ||
    (|ys| > 0 && ((xs[0] == ys[0] && IsSubsequence(xs[1..], ys[1..])) || IsSubsequence(xs, ys[1..])))
  }

  /** The kept lines are the stripped input lines with some deleted: nothing
      is reordered, altered further or invented. */
  lemma {:induction false} FilterSubsequence(lines: seq<string>, removeHeaders: bool)
    ensures IsSubsequence(FilterLines(lines, removeHeaders), StripAll(lines))
    decreases |lines|
  {
    if |lines| > 0 {
      FilterSubsequence(lines[1..], removeHeaders);
      var all := StripAll(lines);
      var rest := FilterLines(lines[1..], removeHeaders);
      var line := Strip(lines[0]);
      assert all == [line] + StripAll(lines[1..]);
      assert all[0] == line && all[1..] == StripAll(lines[1..]);
      if Keeps(line, removeHeaders) {
        var r := [line] + rest;
        assert FilterLines(lines, removeHeaders) == r;
        assert r[0] == all[0] && r[1..] == rest;
      } else {
        assert FilterLines(lines, removeHeaders) == rest;
      }
    }
  }

  /** With `--keep-headers`, the only lines dropped are the blank ones: when
      no line is blank every stripped line is kept. */
  lemma {:induction false} KeepHeadersDropsOnlyBlank(lines: seq<string>)
    requires forall i :: 0 <= i < |lines| ==> Strip(lines[i]) != []
    ensures FilterLines(lines, false) == StripAll(lines)
    decreases |lines|
  {
    if |lines| > 0 {
      var rest := lines[1..];
      assert forall i :: 0 <= i < |rest| ==> Strip(rest[i]) != [] by {
        forall i | 0 <= i < |rest| ensures Strip(rest[i]) != [] {
          assert rest[i] == lines[i + 1];
        }
      }
      KeepHeadersDropsOnlyBlank(rest);
      var line := Strip(lines[0]);
      assert line != [];
      assert Keeps(line, false);
    }
  }

  /** A blank line anywhere leaves the kept lines unchanged. */
  lemma IgnoresBlankLine(a: seq<string>, blank: string, b: seq<string>, removeHeaders: bool)
    requires forall i :: 0 <= i < |blank| ==> IsSpace(blank[i])
    ensures FilterLines(a + [blank] + b, removeHeaders) == FilterLines(a + b, removeHeaders)
  {
    var fa := FilterLines(a, removeHeaders);
    FilterAppend(a + [blank], b, removeHeaders);
    FilterAppend(a, [blank], removeHeaders);
    FilterAppend(a, b, removeHeaders);
    BlankDropped(blank, removeHeaders);
    assert FilterLines(a + [blank], removeHeaders) == fa + [];
    assert fa + [] == fa;
  }

  /** A line of whitespace alone is dropped. */
  lemma BlankDropped(blank: string, removeHeaders: bool)
    requires forall i :: 0 <= i < |blank| ==> IsSpace(blank[i])
    ensures FilterLines([blank], removeHeaders) == []
  {
    StripIgnoresPadding(blank, [], []);
    assert blank + [] + [] == blank;
    assert Strip([]) == [];
    assert [blank][1..] == [];
  }

  /** Whitespace around any line leaves the kept lines unchanged. */
  lemma IgnoresPadding(a: seq<string>, pre: string, line: string, post: string,
                       b: seq<string>, removeHeaders: bool)
    requires forall i :: 0 <= i < |pre| ==> IsSpace(pre[i])
    requires forall i :: 0 <= i < |post| ==> IsSpace(post[i])
    ensures FilterLines(a + [pre + line + post] + b, removeHeaders) ==
            FilterLines(a + [line] + b, removeHeaders)
  {
    FilterAppend(a + [pre + line + post], b, removeHeaders);
    FilterAppend(a, [pre + line + post], removeHeaders);
    FilterAppend(a + [line], b, removeHeaders);
    FilterAppend(a, [line], removeHeaders);
    StripIgnoresPadding(pre, line, post);
  }

  /** The lines that are not empty, in order. */
  function DropBlank(lines: seq<string>): seq<string>
    decreases |lines|
  {
    if |lines| == 0 then []
    else (if lines[0] == [] then [] else [lines[0]]) + DropBlank(lines[1..])
  }

  /** The filter sees only the non-blank stripped lines. */
  lemma {:induction false} FilterStripped(lines: seq<string>, removeHeaders: bool)
    ensures FilterLines(lines, removeHeaders) == FilterLines(DropBlank(StripAll(lines)), removeHeaders)
    decreases |lines|
  {
    if |lines| > 0 {
      FilterStripped(lines[1..], removeHeaders);
      var line := Strip(lines[0]);
      var all := StripAll(lines);
      assert all == [line] + StripAll(lines[1..]);
      assert all[0] == line && all[1..] == StripAll(lines[1..]);
      var rest := DropBlank(StripAll(lines[1..]));
      if line == [] {
        assert DropBlank(all) == [] + rest;
        assert [] + rest == rest;
        assert FilterLines(lines, removeHeaders) == [] + FilterLines(lines[1..], removeHeaders);
      } else {
        var d := [line] + rest;
        assert DropBlank(all) == d;
        assert d[0] == line && d[1..] == rest;
        StripFixedPoint(line);
        assert FilterLines(d, removeHeaders) ==
          (if Keeps(line, removeHeaders) then [line] else []) + FilterLines(rest, removeHeaders);
      }
    }
  }

  /** So the Base64 text handed to the decoder, and therefore the result,
      depends only on the non-blank lines after stripping: two texts that
      agree on those, whatever their blank lines and surrounding whitespace,
      give the same payload. */
  lemma PayloadIgnoresLayout(c1: string, c2: string, removeHeaders: bool)
    requires DropBlank(StripAll(Split(c1, '\n'))) == DropBlank(StripAll(Split(c2, '\n')))
    ensures Payload(c1, removeHeaders) == Payload(c2, removeHeaders)
  {
    FilterStripped(Split(c1, '\n'), removeHeaders);
    FilterStripped(Split(c2, '\n'), removeHeaders);
  }
}
