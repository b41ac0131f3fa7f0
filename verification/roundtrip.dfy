/** The promise that the decoder can decode files created by the encoder:
    decoding what the encoder writes gives back the original bytes, and the
    default names compose to `<stem>_decoded`. */
module RoundTrip {
  import opened Wrappers
  import opened Ascii
  import opened Text
  import opened Paths
  import Base64
  import Encoder
  import Decoder

  /** An encoded line survives stripping unchanged and, unless empty, the
      filter keeps it: it has no space, so it cannot mention a marker. */
  lemma AlphabetLineKept(line: string, removeHeaders: bool)
    requires Base64.InAlphabet(line)
    ensures Strip(line) == line
    ensures line != [] ==> Decoder.Keeps(line, removeHeaders)
  {
    AlphabetNoSpace(line);
    StripFixedPoint(line);
    NoSpaceNotMarker(line);
  }

  lemma AlphabetNoSpace(line: string)
    requires Base64.InAlphabet(line)
    ensures NoSpace(line)
  {
    forall i | 0 <= i < |line| ensures !IsSpace(line[i]) {
      assert Base64.IsSymbol(line[i]) || line[i] == Base64.Pad;
    }
  }

  /** A line without spaces cannot mention either marker, as both hold one. */
  lemma NoSpaceNotMarker(line: string)
    requires NoSpace(line)
    ensures !Decoder.IsMarkerLine(line)
  {
    NoSpaceNoMatch(line, "BEGIN CERTIFICATE", 5);
    NoSpaceNoMatch(line, "END CERTIFICATE", 3);
  }

  /** The filter passes encoded lines through, up to empty ones, which add
      nothing to the concatenation anyway. */
  lemma {:induction false} FilterAlphabetLines(lines: seq<string>, removeHeaders: bool)
    requires Encoder.AllInAlphabet(lines)
    ensures Concat(Decoder.FilterLines(lines, removeHeaders)) == Concat(lines)
    decreases |lines|
  {
    if |lines| > 0 {
      FilterAlphabetLines(lines[1..], removeHeaders);
      AlphabetLineKept(lines[0], removeHeaders);
      var rest := Decoder.FilterLines(lines[1..], removeHeaders);
      if lines[0] == [] {
        assert Decoder.FilterLines(lines, removeHeaders) == [] + rest;
        assert [] + rest == rest;
      } else {
        var r := [lines[0]] + rest;
        assert Decoder.FilterLines(lines, removeHeaders) == r;
        assert r[1..] == rest;
      }
    }
  }

  /** The begin marker mentions `BEGIN CERTIFICATE`, from index 5. */
  lemma BeginMarkerMentionsTag()
    ensures Contains(Encoder.BeginMarker, "BEGIN CERTIFICATE")
  {
    var m, t := Encoder.BeginMarker, "BEGIN CERTIFICATE";
    assert forall k :: 0 <= k < 17 ==> m[k + 5] == t[k];
    assert forall k :: 0 <= k < 17 ==> m[5..22][k] == t[k];
    assert OccursAt(m, t, 5);
    ContainsAt(m, t);
  }

  /** The end marker mentions `END CERTIFICATE`, from index 5. */
  lemma EndMarkerMentionsTag()
    ensures Contains(Encoder.EndMarker, "END CERTIFICATE")
  {
    var m, t := Encoder.EndMarker, "END CERTIFICATE";
    assert forall k :: 0 <= k < 15 ==> m[k + 5] == t[k];
    assert forall k :: 0 <= k < 15 ==> m[5..20][k] == t[k];
    assert OccursAt(m, t, 5);
    ContainsAt(m, t);
  }

  /** A line that strips to itself and mentions a marker is dropped when
      headers are removed. */
  lemma MarkerLineDropped(m: string)
    requires Trimmed(m) && m != []
    requires Decoder.IsMarkerLine(m)
    ensures Decoder.FilterLines([m], true) == []
  {
    StripFixedPoint(m);
    assert [m][1..] == [];
  }

  /** With header removal, both marker lines are dropped. */
  lemma MarkersDropped()
    ensures Decoder.FilterLines([Encoder.BeginMarker], true) == []
    ensures Decoder.FilterLines([Encoder.EndMarker], true) == []
  {
    BeginMarkerMentionsTag();
    MarkerLineDropped(Encoder.BeginMarker);
    EndMarkerMentionsTag();
    MarkerLineDropped(Encoder.EndMarker);
  }

  /** The decoder's filter reduces the encoder's lines to the encoding:
      marker lines are dropped (when they were added, the decoder is asked to
      remove them) and every other line is kept as it is. */
  lemma FilterEncodeLines(data: seq<byte>, lineLength: int, addHeader: bool, removeHeaders: bool)
    requires addHeader ==> removeHeaders
    ensures Concat(Decoder.FilterLines(Encoder.EncodeLines(data, lineLength, addHeader), removeHeaders))
      == Base64.Encode(data)
  {
    var body := Encoder.Lines(Base64.Encode(data), lineLength);
    Encoder.LinesInAlphabet(data, lineLength);
    FilterAlphabetLines(body, removeHeaders);
    if addHeader {
      assert Encoder.EncodeLines(data, lineLength, addHeader) ==
        [Encoder.BeginMarker] + body + [Encoder.EndMarker];
      FilterFramed(body);
    }
  }

  /** Removing headers drops the two markers around the lines. */
  lemma FilterFramed(body: seq<string>)
    ensures Decoder.FilterLines([Encoder.BeginMarker] + body + [Encoder.EndMarker], true) ==
      Decoder.FilterLines(body, true)
  {
    var b, e := [Encoder.BeginMarker], [Encoder.EndMarker];
    Decoder.FilterAppend(b + body, e, true);
    Decoder.FilterAppend(b, body, true);
    MarkersDropped();
    var f := Decoder.FilterLines(body, true);
    assert [] + f + [] == f;
  }

  /** Empty text has no lines to keep. */
  lemma EmptyPayload(removeHeaders: bool)
    ensures Decoder.Payload([], removeHeaders) == []
  {
    assert Split([], '\n') == [[]];
    assert Strip([]) == [];
    assert Decoder.FilterLines([[]], removeHeaders) == [];
  }

  /** The Base64 text the decoder extracts from the encoder's output is
      exactly the encoding of the original bytes. */
  lemma PayloadOfEncodeText(data: seq<byte>, lineLength: int, addHeader: bool, removeHeaders: bool)
    requires addHeader ==> removeHeaders
    ensures Decoder.Payload(Encoder.EncodeText(data, lineLength, addHeader), removeHeaders)
      == Base64.Encode(data)
  {
    var lines := Encoder.EncodeLines(data, lineLength, addHeader);
    FilterEncodeLines(data, lineLength, addHeader, removeHeaders);
    if lines == [] {
      EmptyPayload(removeHeaders);
    } else {
      Encoder.SplitEncodeText(data, lineLength, addHeader);
    }
  }

  /** Decoding the encoder's text gives back the original bytes, for every
      line length, whenever markers that were added are also removed. */
  lemma TextRoundTrip(data: seq<byte>, lineLength: int, addHeader: bool, removeHeaders: bool)
    requires addHeader ==> removeHeaders
    ensures Decoder.DecodeText(Encoder.EncodeText(data, lineLength, addHeader), removeHeaders) == Some(data)
  {
    PayloadOfEncodeText(data, lineLength, addHeader, removeHeaders);
    Base64.DecodeEncode(data);
  }

  /** The same at the level of files: decoding the file the encoder writes
      writes the original bytes. */
  lemma FileRoundTrip(input: string, data: seq<byte>, lineLength: int, addHeader: bool,
                      removeHeaders: bool, output: Option<string>)
    requires addHeader ==> removeHeaders
    ensures var written := Encoder.EncodeFile(input, data, output, lineLength, addHeader).value;
      Decoder.DecodeFile(written.path, written.data, None, removeHeaders)
        == Some(FileWrite(Decoder.OutputName(written.path), data))
  {
    var text := Encoder.EncodeText(data, lineLength, addHeader);
    var written := Encoder.EncodeFile(input, data, output, lineLength, addHeader).value;
    assert BytesToText(written.data) == Some(text);
    Encoder.EncodeTextPlain(data, lineLength, addHeader);
    TextRoundTrip(data, lineLength, addHeader, removeHeaders);
    Decoder.DecodeFileOfText(written.path, written.data, text, removeHeaders);
  }

  /** The `\r\n` translation keeps ASCII text ASCII. */
  lemma {:induction false} CrLfAscii(s: string)
    requires IsAsciiText(s)
    ensures IsAsciiText(CrLfNewlines(s))
    decreases |s|
  {
    if |s| > 0 {
      assert IsAsciiText(s[1..]) by {
        forall i | 0 <= i < |s| - 1 ensures IsAsciiChar(s[1..][i]) {
          assert s[1..][i] == s[i + 1];
        }
      }
      CrLfAscii(s[1..]);
      var t := CrLfNewlines(s[1..]);
      var h := if s[0] == '\n' then "\r\n" else [s[0]];
      assert IsAsciiText(h);
      assert CrLfNewlines(s) == h + t;
      forall i | 0 <= i < |h + t| ensures IsAsciiChar((h + t)[i]) {
        if i >= |h| {
          assert (h + t)[i] == t[i - |h|];
        }
      }
    }
  }

  /** Where a text-mode write turns every line feed into `\r\n`, the file
      the encoder writes still decodes to the original bytes: the decoder's
      universal-newline read undoes the translation. */
  lemma CrLfFileRoundTrip(path: string, data: seq<byte>, lineLength: int, addHeader: bool,
                          removeHeaders: bool)
    requires addHeader ==> removeHeaders
    ensures var text := CrLfNewlines(Encoder.EncodeText(data, lineLength, addHeader));
      && TextToBytes(text).Some?
      && Decoder.DecodeFile(path, TextToBytes(text).value, None, removeHeaders)
           == Some(FileWrite(Decoder.OutputName(path), data))
  {
    var plain := Encoder.EncodeText(data, lineLength, addHeader);
    var text := CrLfNewlines(plain);
    Encoder.EncodeTextPlain(data, lineLength, addHeader);
    CrLfAscii(plain);
    TextToBytesToText(text);
    UniversalNewlinesUndoesCrLf(plain);
    TextRoundTrip(data, lineLength, addHeader, removeHeaders);
  }

  /** With default names on both sides, encoding `<stem><ext>` writes
      `<stem>.txt` and decoding that writes `<stem>_decoded`, provided the
      stem's final component is not all dots. */
  lemma NamesRoundTrip(input: string)
    requires HasNonDot(FinalComponent(SplitExt(input).0))
    ensures Decoder.OutputName(Encoder.OutputName(input)) == SplitExt(input).0 + "_decoded"
  {
    var stem := SplitExt(input).0;
    assert Encoder.OutputName(input) == stem + [ExtSep] + "txt";
    SplitExtOf(stem, "txt");
  }

  /** The bytes of `hello`. */
  const Hello: seq<byte> := [104, 101, 108, 108, 111]

  lemma HelloEncoding()
    ensures Base64.Encode(Hello) == "aGVsbG8="
  {
    assert Base64.EncodeGroup(104, 101, 108) == "aGVs" by {
      assert 104 / 4 == 26 && 104 % 4 * 16 + 101 / 16 == 6;
      assert 101 % 16 * 4 + 108 / 64 == 21 && 108 % 64 == 44;
      assert Base64.Value('a') == 26 && Base64.Value('G') == 6;
      assert Base64.Value('V') == 21 && Base64.Value('s') == 44;
    }
    OneGroup(104, 101, 108);
    assert Base64.EncodeGroup(108, 111, 0)[..3] == "bG8" by {
      assert 108 / 4 == 27 && 108 % 4 * 16 + 111 / 16 == 6 && 111 % 16 * 4 + 0 / 64 == 60;
      assert Base64.Value('b') == 27 && Base64.Value('G') == 6 && Base64.Value('8') == 60;
    }
    Base64.EncodeShort([108, 111]);
    VectorAfterGroup([104, 101, 108], [108, 111], "aGVs", "bG8=");
    assert [104, 101, 108] + [108, 111] == Hello;
    assert "aGVs" + "bG8=" == "aGVsbG8=";
  }

  /** The test vectors of section 10 of RFC 4648, in both directions. */
  lemma VectorEmpty()
    ensures Base64.Encode([]) == "" && Base64.Decode("") == Some([])
  {
  }

  lemma VectorF()
    ensures Base64.Encode([102]) == "Zg==" && Base64.Decode("Zg==") == Some([102])
  {
    assert Base64.EncodeGroup(102, 0, 0)[..2] == "Zg" by {
      assert 102 / 4 == 25 && 102 % 4 * 16 + 0 / 16 == 32;
      assert Base64.Value('Z') == 25 && Base64.Value('g') == 32;
    }
    Base64.EncodeShort([102]);
    Base64.DecodeIffEncoding("Zg==", [102]);
  }

  lemma VectorFo()
    ensures Base64.Encode([102, 111]) == "Zm8=" && Base64.Decode("Zm8=") == Some([102, 111])
  {
    assert Base64.EncodeGroup(102, 111, 0)[..3] == "Zm8" by {
      assert 102 / 4 == 25 && 102 % 4 * 16 + 111 / 16 == 38 && 111 % 16 * 4 + 0 / 64 == 60;
      assert Base64.Value('Z') == 25 && Base64.Value('m') == 38 && Base64.Value('8') == 60;
    }
    Base64.EncodeShort([102, 111]);
    Base64.DecodeIffEncoding("Zm8=", [102, 111]);
  }

  lemma VectorFoo()
    ensures Base64.Encode([102, 111, 111]) == "Zm9v" && Base64.Decode("Zm9v") == Some([102, 111, 111])
  {
    assert Base64.EncodeGroup(102, 111, 111) == "Zm9v" by {
      assert 102 / 4 == 25 && 102 % 4 * 16 + 111 / 16 == 38;
      assert 111 % 16 * 4 + 111 / 64 == 61 && 111 % 64 == 47;
      assert Base64.Value('Z') == 25 && Base64.Value('m') == 38;
      assert Base64.Value('9') == 61 && Base64.Value('v') == 47;
    }
    OneGroup(102, 111, 111);
    Base64.DecodeIffEncoding("Zm9v", [102, 111, 111]);
  }

  /** Three bytes encode as one group. */
  lemma OneGroup(a: byte, b: byte, c: byte)
    ensures Base64.Encode([a, b, c]) == Base64.EncodeGroup(a, b, c)
  {
    var d := [a, b, c];
    Base64.EncodeCons(d, []);
    assert d + [] == d;
  }

  /** The encoding of a full group followed by more bytes is the two
      encodings side by side. */
  lemma EncodeAfterGroup(head: seq<byte>, tail: seq<byte>)
    requires |head| == 3
    ensures Base64.Encode(head + tail) == Base64.Encode(head) + Base64.Encode(tail)
  {
    Base64.EncodeCons(head, tail);
    Base64.EncodeCons(head, []);
    assert head + [] == head;
  }

  /** The endings after `foo` that the vectors use. */
  lemma BEncoding()
    ensures Base64.Encode([98]) == "Yg=="
  {
    assert Base64.EncodeGroup(98, 0, 0)[..2] == "Yg" by {
      assert 98 / 4 == 24 && 98 % 4 * 16 + 0 / 16 == 32;
      assert Base64.Value('Y') == 24 && Base64.Value('g') == 32;
    }
    Base64.EncodeShort([98]);
  }

  lemma BaEncoding()
    ensures Base64.Encode([98, 97]) == "YmE="
  {
    assert Base64.EncodeGroup(98, 97, 0)[..3] == "YmE" by {
      assert 98 / 4 == 24 && 98 % 4 * 16 + 97 / 16 == 38 && 97 % 16 * 4 + 0 / 64 == 4;
      assert Base64.Value('Y') == 24 && Base64.Value('m') == 38 && Base64.Value('E') == 4;
    }
    Base64.EncodeShort([98, 97]);
  }

  lemma BarEncoding()
    ensures Base64.Encode([98, 97, 114]) == "YmFy"
  {
    assert Base64.EncodeGroup(98, 97, 114) == "YmFy" by {
      assert 98 / 4 == 24 && 98 % 4 * 16 + 97 / 16 == 38;
      assert 97 % 16 * 4 + 114 / 64 == 5 && 114 % 64 == 50;
      assert Base64.Value('Y') == 24 && Base64.Value('m') == 38;
      assert Base64.Value('F') == 5 && Base64.Value('y') == 50;
    }
    OneGroup(98, 97, 114);
  }

  /** A vector longer than one group, from its first group and the rest. */
  lemma VectorAfterGroup(head: seq<byte>, tail: seq<byte>, s1: string, s2: string)
    requires |head| == 3 && Base64.Encode(head) == s1 && Base64.Encode(tail) == s2
    ensures Base64.Encode(head + tail) == s1 + s2
    ensures Base64.Decode(s1 + s2) == Some(head + tail)
  {
    EncodeAfterGroup(head, tail);
    Base64.DecodeIffEncoding(s1 + s2, head + tail);
  }

  lemma VectorFoob()
    ensures Base64.Encode([102, 111, 111, 98]) == "Zm9vYg=="
    ensures Base64.Decode("Zm9vYg==") == Some([102, 111, 111, 98])
  {
    VectorFoo();
    BEncoding();
    VectorAfterGroup([102, 111, 111], [98], "Zm9v", "Yg==");
    assert [102, 111, 111] + [98] == [102, 111, 111, 98];
    assert "Zm9v" + "Yg==" == "Zm9vYg==";
  }

  lemma VectorFooba()
    ensures Base64.Encode([102, 111, 111, 98, 97]) == "Zm9vYmE="
    ensures Base64.Decode("Zm9vYmE=") == Some([102, 111, 111, 98, 97])
  {
    VectorFoo();
    BaEncoding();
    VectorAfterGroup([102, 111, 111], [98, 97], "Zm9v", "YmE=");
    assert [102, 111, 111] + [98, 97] == [102, 111, 111, 98, 97];
    assert "Zm9v" + "YmE=" == "Zm9vYmE=";
  }

  lemma VectorFoobar()
    ensures Base64.Encode([102, 111, 111, 98, 97, 114]) == "Zm9vYmFy"
    ensures Base64.Decode("Zm9vYmFy") == Some([102, 111, 111, 98, 97, 114])
  {
    VectorFoo();
    BarEncoding();
    VectorAfterGroup([102, 111, 111], [98, 97, 114], "Zm9v", "YmFy");
    assert [102, 111, 111] + [98, 97, 114] == [102, 111, 111, 98, 97, 114];
    assert "Zm9v" + "YmFy" == "Zm9vYmFy";
  }

  /** Encoding `hello` with line length 4 and no markers gives the lines
      `aGVs` and `bG8=`, and the text `aGVs\nbG8=` decodes back to `hello`. */
  lemma HelloExample()
    ensures Encoder.EncodeLines(Hello, 4, false) == ["aGVs", "bG8="]
    ensures Decoder.DecodeText("aGVs\nbG8=", true) == Some(Hello)
  {
    HelloEncoding();
    var s := "aGVsbG8=";
    assert s[..4] == "aGVs" && s[4..] == "bG8=";
    assert Encoder.Chunk(s, 4) == ["aGVs"] + Encoder.Chunk("bG8=", 4);
    assert Join(["aGVs", "bG8="], '\n') == "aGVs\nbG8=";
    TextRoundTrip(Hello, 4, false, true);
  }

  /** A single line without spaces or markers is the whole payload. */
  lemma SingleLinePayload(t: string, removeHeaders: bool)
    requires NoSpace(t) && t != []
    ensures Decoder.Payload(t, removeHeaders) == t
  {
    assert '\n' !in t by {
      assert forall i :: 0 <= i < |t| ==> !IsSpace(t[i]);
    }
    SplitNoSep(t, '\n');
    assert Trimmed(t);
    StripFixedPoint(t);
    NoSpaceNotMarker(t);
    assert Decoder.FilterLines([t], removeHeaders) == [t] + Decoder.FilterLines([], removeHeaders);
    assert Concat([t]) == t + Concat([]);
  }

  /** Text that is not Base64 is refused: `not-base64!!!` is kept as one
      line of 13 characters, not a whole number of quanta. */
  lemma InvalidExample()
    ensures Decoder.DecodeText("not-base64!!!", true) == None
  {
    var t := "not-base64!!!";
    assert NoSpace(t);
    SingleLinePayload(t, true);
  }
}
