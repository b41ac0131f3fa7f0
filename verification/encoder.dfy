/** The transform inside `encode_file` of encode_payload.py: Base64-encode
    the payload, cut the result into lines of a fixed width (or leave it as
    one line), optionally frame the lines with certificate markers, and join
    them with line feeds. */
module Encoder {
  import opened Wrappers
  import opened Ascii
  import opened Text
  import opened Paths
  import Base64

  const BeginMarker := "-----BEGIN CERTIFICATE-----"
  const EndMarker := "-----END CERTIFICATE-----"

  function Min(a: int, b: int): int {
    if a <= b then a else b
  }

  /** Cutting `s` into consecutive pieces of width `w`, the last piece
      holding what remains. Only the empty string has no pieces. */
  function Chunk(s: string, w: int): (r: seq<string>)
    requires w > 0
    ensures r == [] <==> s == []
    decreases |s|
  {
    if |s| == 0 then []
    else if |s| <= w then [s]
    else [s[..w]] + Chunk(s[w..], w)
  }

  /** The chunks spell the string back. */
  lemma {:induction false} ChunkConcat(s: string, w: int)
    requires w > 0
    ensures Concat(Chunk(s, w)) == s
    decreases |s|
  {
    if 0 < |s| <= w {
      assert Concat([s]) == s + Concat([]);
    } else if |s| > w {
      ChunkConcat(s[w..], w);
      assert Concat(Chunk(s, w)) == s[..w] + Concat(Chunk(s[w..], w));
      assert s[..w] + s[w..] == s;
    }
  }

  /** Every chunk has exactly `w` characters except the last, which has
      between 1 and `w`. */
  lemma {:induction false} ChunkWidths(s: string, w: int)
    requires w > 0
    ensures var r := Chunk(s, w);
      && (forall i :: 0 <= i < |r| ==> 1 <= |r[i]| <= w)
      && (forall i :: 0 <= i < |r| - 1 ==> |r[i]| == w)
    decreases |s|
  {
    if |s| > w {
      ChunkWidths(s[w..], w);
      var r := Chunk(s, w);
      assert forall i :: 1 <= i < |r| ==> r[i] == Chunk(s[w..], w)[i - 1];
    }
  }

  /** There are ceil(|s| / w) chunks: just enough to hold every character. */
  lemma {:induction false} ChunkCount(s: string, w: int)
    requires w > 0
    ensures var n := |Chunk(s, w)|; (n - 1) * w < |s| <= n * w
    decreases |s|
  {
    if |s| > w {
      ChunkCount(s[w..], w);
      var k := |Chunk(s[w..], w)|;
      assert |Chunk(s, w)| == k + 1;
      assert (k - 1) * w < |s| - w <= k * w;
      assert (k + 1) * w == k * w + w;
    } else if |s| > 0 {
      assert |Chunk(s, w)| == 1;
    }
  }

  /** One step of the slicing loop: the chunks from `i` on start with the
      slice `s[i:i + w]`. */
  lemma ChunkStep(s: string, i: int, w: int)
    requires w > 0 && 0 <= i < |s|
    ensures Chunk(s[i..], w) == [s[i..Min(i + w, |s|)]] + Chunk(s[Min(i + w, |s|)..], w)
  {
    var t := s[i..];
    if |t| <= w {
      assert Min(i + w, |s|) == |s| && s[i..|s|] == t;
      assert Chunk(s[|s|..], w) == [];
    } else {
      assert t[..w] == s[i..i + w];
      assert t[w..] == s[i + w..];
    }
  }

  /** The loop invariant of `ChunkLoop` survives one iteration. */
  lemma LoopStep(s: string, i: int, w: int, lines: seq<string>)
    requires w > 0 && 0 <= i < |s|
    requires lines + Chunk(s[i..], w) == Chunk(s, w)
    ensures var next := lines + [s[i..Min(i + w, |s|)]];
      && (i + w < |s| ==> next + Chunk(s[i + w..], w) == Chunk(s, w))
      && (i + w >= |s| ==> next == Chunk(s, w))
  {
    ChunkStep(s, i, w);
    var piece := s[i..Min(i + w, |s|)];
    var rest := Chunk(s[Min(i + w, |s|)..], w);
    assert lines + [piece] + rest == lines + ([piece] + rest);
    if i + w >= |s| {
      assert rest == [];
      assert lines + [piece] + [] == lines + [piece];
    }
  }

  /** The `for i in range(0, len(base64_string), line_length)` loop, slicing
      `base64_string[i:i + line_length]` on every step. */
  method ChunkLoop(s: string, w: int) returns (lines: seq<string>)
    requires w > 0
    ensures lines == Chunk(s, w)
  {
    lines := [];
    var i := 0;
    assert s[0..] == s;
    while i < |s|
      invariant 0 <= i
      invariant i < |s| ==> lines + Chunk(s[i..], w) == Chunk(s, w)
      invariant i >= |s| ==> lines == Chunk(s, w)
    {
      LoopStep(s, i, w, lines);
      lines := lines + [s[i..Min(i + w, |s|)]];
      i := i + w;
    }
  }

  /** The `lines` of `encode_file`: the whole string as one line when the
      width is not positive, its chunks otherwise. */
  function Lines(s: string, w: int): (r: seq<string>)
    ensures Concat(r) == s
    ensures w <= 0 ==> |r| == 1
  {
    if w <= 0 then
      assert Concat([s]) == s + Concat([]);
      [s]
    else
      ChunkConcat(s, w);
      Chunk(s, w)
  }

  /** The `output_lines` of `encode_file`: the lines, framed by the two
      markers when `--header` is given. */
  function Wrap(lines: seq<string>, addHeader: bool): (r: seq<string>)
    ensures addHeader ==> |r| == |lines| + 2 && r[0] == BeginMarker && r[|r| - 1] == EndMarker
    ensures addHeader ==> r[1..|r| - 1] == lines
    ensures !addHeader ==> r == lines
  {
    if addHeader then [BeginMarker] + lines + [EndMarker] else lines
  }

  /** Every output line of the encoder, before joining. There are none
      only for empty input wrapped at a positive width without markers. */
  function EncodeLines(data: seq<byte>, lineLength: int, addHeader: bool): (r: seq<string>)
    ensures r == [] <==> data == [] && lineLength > 0 && !addHeader
  {
    Wrap(Lines(Base64.Encode(data), lineLength), addHeader)
  }

  /** `output_content`: the output lines joined by single line feeds. It
      starts with the BEGIN marker when markers are on, and is the bare
      encoding when they are off and the width is not positive. */
  function EncodeText(data: seq<byte>, lineLength: int, addHeader: bool): (r: string)
    ensures addHeader ==> BeginMarker <= r
    ensures !addHeader && lineLength <= 0 ==> r == Base64.Encode(data)
  {
    var lines := EncodeLines(data, lineLength, addHeader);
    var r := Join(lines, '\n');
    assert addHeader ==> lines[0] == BeginMarker && lines[0] <= r;
    r
  }

  /** The default output path: the input path with its extension replaced
      by `.txt`. It names the input itself exactly when the input's
      extension already is `.txt`, so such an input is overwritten by its
      own encoding. */
  function OutputName(input: string): (r: string)
    ensures r == input <==> SplitExt(input).1 == ".txt"
  {
    var (stem, ext) := SplitExt(input);
    var r := stem + ".txt";
    assert r == input ==> ext == ".txt" by {
      if r == input {
        assert ext == input[|stem|..] && ".txt" == r[|stem|..];
      }
    }
    r
  }

  /** Encoding `<stem>.txt` with the default name writes over the input,
      for every stem whose final component is not all dots. */
  lemma OverwritesTextInput(stem: string)
    requires HasNonDot(FinalComponent(stem))
    ensures OutputName(stem + ".txt") == stem + ".txt"
  {
    assert stem + [ExtSep] + "txt" == stem + ".txt";
    SplitExtOf(stem, "txt");
  }

  /** Every line consists of Base64 alphabet symbols and padding only. */
  predicate AllInAlphabet(lines: seq<string>)
    decreases |lines|
  {
    |lines| == 0 || (Base64.InAlphabet(lines[0]) && AllInAlphabet(lines[1..]))
  }

  lemma {:induction false} AllInAlphabetAt(lines: seq<string>, i: int)
    requires AllInAlphabet(lines) && 0 <= i < |lines|
    ensures Base64.InAlphabet(lines[i])
    decreases i
  {
    if i > 0 {
      AllInAlphabetAt(lines[1..], i - 1);
    }
  }

  /** Cutting text made of alphabet characters leaves every chunk made of
      alphabet characters. */
  lemma {:induction false} ChunkInAlphabet(s: string, w: int)
    requires w > 0 && Base64.InAlphabet(s)
    ensures AllInAlphabet(Chunk(s, w))
    decreases |s|
  {
    if |s| > w {
      assert Base64.InAlphabet(s[w..]) by {
        forall i | 0 <= i < |s| - w
          ensures Base64.IsSymbol(s[w..][i]) || s[w..][i] == Base64.Pad
        {
          assert s[w..][i] == s[i + w];
        }
      }
      ChunkInAlphabet(s[w..], w);
      var r := Chunk(s, w);
      assert r[1..] == Chunk(s[w..], w);
    }
  }

  /** No encoded line holds anything but alphabet characters: in particular
      no line feed, no space and no marker text. */
  lemma LinesInAlphabet(data: seq<byte>, w: int)
    ensures AllInAlphabet(Lines(Base64.Encode(data), w))
  {
    Base64.EncodeInAlphabet(data);
    var s := Base64.Encode(data);
    if w <= 0 {
      assert [s][1..] == [];
    } else {
      ChunkInAlphabet(s, w);
    }
  }

  /** With the line length not positive and markers on, the output has
      exactly three lines: the markers around the whole encoding. */
  lemma HeaderWithoutWrapping(data: seq<byte>, lineLength: int)
    requires lineLength <= 0
    ensures EncodeLines(data, lineLength, true) ==
      [BeginMarker, Base64.Encode(data), EndMarker]
  {
    var s := Base64.Encode(data);
    assert Concat([s]) == s + Concat([]);
  }

  /** Characters the encoder may write: ASCII, and never a carriage return,
      so a text-mode read gives the text back unchanged. */
  predicate Plain(s: string) {
    IsAsciiText(s) && '\r' !in s
  }

  lemma PlainAppend(a: string, b: string)
    requires Plain(a) && Plain(b)
    ensures Plain(a + b)
  {
    forall i | 0 <= i < |a + b| ensures IsAsciiChar((a + b)[i]) {
      if i >= |a| {
        assert (a + b)[i] == b[i - |a|];
      }
    }
  }

  /** Joining plain lines with line feeds gives plain text. */
  lemma {:induction false} JoinPlain(lines: seq<string>)
    requires forall i :: 0 <= i < |lines| ==> Plain(lines[i])
    ensures Plain(Join(lines, '\n'))
    decreases |lines|
  {
    if |lines| > 1 {
      JoinPlain(lines[1..]);
      assert Plain(lines[0]);
      PlainAppend(lines[0], ['\n']);
      PlainAppend(lines[0] + ['\n'], Join(lines[1..], '\n'));
    } else if |lines| == 1 {
      assert Plain(lines[0]);
    }
  }

  /** Each output line is one of the markers or made of alphabet characters. */
  lemma EncodeLineAt(data: seq<byte>, lineLength: int, addHeader: bool, i: int)
    requires 0 <= i < |EncodeLines(data, lineLength, addHeader)|
    ensures var line := EncodeLines(data, lineLength, addHeader)[i];
      line == BeginMarker || line == EndMarker || Base64.InAlphabet(line)
  {
    var body := Lines(Base64.Encode(data), lineLength);
    var lines := EncodeLines(data, lineLength, addHeader);
    var j := if addHeader then i - 1 else i;
    if 0 <= j < |body| {
      LinesInAlphabet(data, lineLength);
      assert lines[i] == body[j];
      AllInAlphabetAt(body, j);
    }
  }

  lemma MarkersPlain()
    ensures Plain(BeginMarker) && Plain(EndMarker)
    ensures '\n' !in BeginMarker && '\n' !in EndMarker
  {
    BeginMarkerPlain();
    EndMarkerPlain();
  }

  lemma BeginMarkerPlain()
    ensures Plain(BeginMarker) && '\n' !in BeginMarker
  {
    assert IsAsciiText(BeginMarker);
  }

  lemma EndMarkerPlain()
    ensures Plain(EndMarker) && '\n' !in EndMarker
  {
    assert IsAsciiText(EndMarker);
  }

  /** Every output line is plain. */
  lemma EncodeLinesPlain(data: seq<byte>, lineLength: int, addHeader: bool)
    ensures var lines := EncodeLines(data, lineLength, addHeader);
      forall i :: 0 <= i < |lines| ==> Plain(lines[i])
  {
    var lines := EncodeLines(data, lineLength, addHeader);
    MarkersPlain();
    forall i | 0 <= i < |lines| ensures Plain(lines[i]) {
      EncodeLineAt(data, lineLength, addHeader, i);
      if Base64.InAlphabet(lines[i]) {
        AlphabetIsPlain(lines[i]);
      }
    }
  }

  lemma AlphabetIsPlain(s: string)
    requires Base64.InAlphabet(s)
    ensures Plain(s)
  {
    assert forall i :: 0 <= i < |s| ==> IsAsciiChar(s[i]) && s[i] != '\r';
  }

  /** The encoder's text is plain, so writing it as ASCII cannot fail. */
  lemma EncodeTextPlain(data: seq<byte>, lineLength: int, addHeader: bool)
    ensures Plain(EncodeText(data, lineLength, addHeader))
  {
    EncodeLinesPlain(data, lineLength, addHeader);
    JoinPlain(EncodeLines(data, lineLength, addHeader));
  }

  /** No output line holds a line feed, so splitting the text on line feeds
      gives the output lines back (when there is at least one). */
  lemma SplitEncodeText(data: seq<byte>, lineLength: int, addHeader: bool)
    requires EncodeLines(data, lineLength, addHeader) != []
    ensures Split(EncodeText(data, lineLength, addHeader), '\n') == EncodeLines(data, lineLength, addHeader)
  {
    var lines := EncodeLines(data, lineLength, addHeader);
    MarkersPlain();
    forall i | 0 <= i < |lines| ensures '\n' !in lines[i] {
      EncodeLineAt(data, lineLength, addHeader, i);
      if Base64.InAlphabet(lines[i]) {
        assert forall k :: 0 <= k < |lines[i]| ==> lines[i][k] != '\n';
      }
    }
    SplitJoin(lines, '\n');
  }

  /** A whole `encode_file` run on the bytes of the input file: the file it
      writes. The ASCII encoding of the output text never fails, so the run
      always writes, and the bytes written read back as the output text. */
  function EncodeFile(input: string, content: seq<byte>, output: Option<string>,
                      lineLength: int, addHeader: bool): (r: Option<FileWrite>)
    ensures r.Some?
    ensures BytesToText(r.value.data) == Some(EncodeText(content, lineLength, addHeader))
    ensures output.Some? ==> r.value.path == output.value
    ensures output.None? ==> r.value.path == OutputName(input)
  {
    var text := EncodeText(content, lineLength, addHeader);
    EncodeTextPlain(content, lineLength, addHeader);
    TextToBytesToText(text);
    Some(FileWrite(if output.Some? then output.value else OutputName(input), TextToBytes(text).value))
  }
}
