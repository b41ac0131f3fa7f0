# Base64 payload encoder and decoder, modelled in Dafny

The repository holds two command-line tools that move arbitrary files through text channels the way `certutil` expects:

- `encode_payload.py` Base64-encodes a file. It cuts the encoding into lines of a fixed width (64 by default, no wrapping when the width is not positive). It can frame the lines with `-----BEGIN CERTIFICATE-----` / `-----END CERTIFICATE-----`. It joins them with line feeds and writes the result as ASCII to `<stem>.txt`.
- `decode_payload.py` reads such a file as ASCII text. It:
  - splits the text on line feeds and strips each line;
  - drops blank lines and, unless `--keep-headers` is given, every line that mentions `BEGIN CERTIFICATE` or `END CERTIFICATE`;
  - concatenates what is left and Base64-decodes it into `<stem>_decoded`.

The model covers the pure transform at the heart of each tool, the default output names, and the ASCII codec both tools apply at their file boundary. A run of either tool is a function from the input path, the input file's bytes and the options to the file it writes: `Some(FileWrite(path, bytes))`, or `None` where the tool returns False.

Modules:

- `Wrappers` is the `Option` type.
- `Ascii` covers bytes, `bytes.decode('ascii')` and `str.encode('ascii')`.
- `Text` covers `str.split`, `sep.join`, `''.join`, `str.strip`, the substring test `in`, and the newline translations of text-mode reads and writes.
- `Paths` is POSIX `os.path.splitext`.
- `Base64` is section 4 of RFC 4648, with a strict decoder.
- `Encoder` and `Decoder` are the two tools.
- `RoundTrip` holds the decoder's promise that it can decode files created by the encoder (decode_payload.py:5).

The main results:

- `Base64.DecodeIffEncoding`: the strict decoder yields `data` from `s` exactly when `s` is the encoding of `data`.
- `RoundTrip.TextRoundTrip` and `RoundTrip.FileRoundTrip`: for all bytes, every line length and every header flag, decoding the encoder's output gives back the original bytes. When the encoder added markers, the decoder must remove them.
- `RoundTrip.NamesRoundTrip`: the default names compose to `<stem>_decoded`.
- `RoundTrip.CrLfFileRoundTrip`: the round trip also holds where a text-mode write turns every line feed into `\r\n`.
- `Encoder.OutputName`: the encoder's default name is its own input exactly when `splitext` gives the input the extension `.txt`. The name `.txt` on its own, or `dir/.txt`, has no extension, so its default name is `.txt.txt`. Encoding `notes.txt` without an explicit output therefore replaces `notes.txt` with its encoding. The decoder's default name never equals its input.

## Model

| member | source | states |
|---|---|---|
| Ascii.BytesToText | decode_payload.py:27-28 | Reading the input as ASCII succeeds only on bytes below 0x80. The text then has one character per byte, with the same code. |
| Ascii.TextToBytes | encode_payload.py:67-68 | Writing text as ASCII succeeds only on characters below 128. Each byte written is the character's code. |
| Ascii.TextToBytesToText | encode_payload.py:67-68 | Encoding as ASCII succeeds exactly on ASCII text, and reading the bytes back gives the same text. |
| Ascii.BytesToTextToBytes | decode_payload.py:27-28 | Reading bytes as ASCII succeeds exactly when every byte is below 0x80, and writing the text back gives the same bytes. |
| Text.TrimStartDropsSpaces | decode_payload.py:38 | `lstrip` removes a prefix made only of whitespace and leaves a suffix that does not start with whitespace. |
| Text.TrimEndDropsSpaces | decode_payload.py:38 | `rstrip` removes a suffix made only of whitespace and leaves a prefix that does not end with whitespace. |
| Text.Strip | decode_payload.py:38 | The stripped line neither starts nor ends with whitespace. |
| Text.StripFixedPoint | decode_payload.py:38 | Stripping leaves a line unchanged if and only if neither end of it is whitespace. |
| Text.StripIgnoresPadding | decode_payload.py:38 | Any amount of whitespace on either side of a line does not change the stripped line. |
| Text.Join | encode_payload.py:58 | `'\n'.join` of no lines is empty. Otherwise its length is the total length of the lines plus one separator for each pair of neighbours. |
| Text.Split | decode_payload.py:34 | `split('\n')` always yields at least one piece, and no piece contains a line feed. |
| Text.SplitJoin | encode_payload.py:58 | Splitting the `'\n'`-joined lines gives the lines back, provided there is at least one line and none holds a line feed. |
| Text.JoinSplit | decode_payload.py:34 | Joining the pieces of a split with the separator restores the text. |
| Text.Concat | decode_payload.py:46 | `''.join` is empty exactly when every line is empty. |
| Text.ConcatAppend | decode_payload.py:46 | `''.join` of two lists of lines appended is the two concatenations appended. |
| Text.Contains | decode_payload.py:41 | The empty pattern occurs in every line, and a pattern longer than the line never does. |
| Text.ContainsAt | decode_payload.py:41 | The `in` test holds exactly when the pattern occurs at some index of the line. |
| Text.NoSpaceNoMatch | decode_payload.py:41 | A pattern containing a space never occurs in a line without whitespace. |
| Text.UniversalNewlines | decode_payload.py:27-28 | The text a text-mode read returns holds no carriage return and is no longer than the file. The three lemmas below say what each character becomes. |
| Text.UniversalNewlinesAppend | decode_payload.py:27-28 | Text before the first carriage return is read unchanged. |
| Text.UniversalNewlinesCrLf | decode_payload.py:27-28 | A `\r\n` pair after carriage-return-free text is read as one line feed, and the rest is read on its own. |
| Text.UniversalNewlinesLoneCr | decode_payload.py:27-28 | A carriage return not followed by a line feed is read as a line feed. |
| Text.CrLfNewlines | encode_payload.py:67-68 | The text a text-mode write stores where `os.linesep` is `\r\n`. It is never shorter than the text, and text without line feeds is stored unchanged. |
| Text.UniversalNewlinesUndoesCrLf | decode_payload.py:27-28 | Reading text stored with `\r\n` line ends gives back the written text, provided that text held no carriage return. |
| Text.UniversalNewlinesIdentity | decode_payload.py:27-28 | A file without carriage returns is read back exactly. |
| Paths.RFind | encode_payload.py:62 | The last index holding the character: -1 exactly when there is none, and no later index holds it. |
| Paths.SplitExt | encode_payload.py:62 | `splitext` splits the path into root and extension that concatenate back to it. The extension is empty, or it starts with the only dot it contains and holds no separator. |
| Paths.SplitExtOf | decode_payload.py:57 | A root whose final component is not all dots, followed by a dot and a dot-free extension, splits back into exactly that root and extension. |
| Base64.Symbol | encode_payload.py:35 | Every 6-bit value maps to a character of the RFC 4648 alphabet. |
| Base64.Value | decode_payload.py:50 | Decoding an alphabet character gives the 6-bit value that encodes back to it. |
| Base64.Encode | encode_payload.py:35 | The encoding of n bytes has 4·⌈n/3⌉ characters. |
| Base64.PadCount | encode_payload.py:35 | There are at most two padding characters, and none exactly when the length is a multiple of three. |
| Base64.EncodeAlphabet | encode_payload.py:35 | Every character of an encoding is an alphabet symbol, except the last PadCount(n) characters, which are `=`. |
| Base64.EncodeInAlphabet | encode_payload.py:35-36 | The encoding consists only of alphabet symbols and `=`. |
| Base64.DecodeGroup | decode_payload.py:50 | A quantum of four symbols decodes to three bytes. GroupRoundTrip and GroupInverse make it the inverse of the group encoding. |
| Base64.DecodeFinal | decode_payload.py:50 | The last quantum decodes to one, two or three bytes. FinalInverse makes it the inverse of the final encoding. |
| Base64.Decode | decode_payload.py:50 | Decoding succeeds only on a whole number of 4-character quanta. |
| Base64.GroupRoundTrip | decode_payload.py:50 | Decoding the four symbols of a full 3-byte group gives the three bytes back. |
| Base64.OneByteRoundTrip | decode_payload.py:50 | A final quantum with two `=` decodes back to its single byte. |
| Base64.TwoByteRoundTrip | decode_payload.py:50 | A final quantum with one `=` decodes back to its two bytes. |
| Base64.DecodeEncode | decode_payload.py:50 | Decoding the encoding of any bytes gives the bytes back. |
| Base64.EncodeDecode | decode_payload.py:50 | Whatever the strict decoder accepts is exactly the encoding of what it returns. |
| Base64.DecodeIffEncoding | decode_payload.py:49-53 | Decoding `s` yields `data` if and only if `s` is the encoding of `data`. |
| Encoder.Chunk | encode_payload.py:43-45 | Only the empty string is cut into no pieces. |
| Encoder.ChunkLoop | encode_payload.py:43-45 | The slicing loop over `range(0, len, w)` builds exactly the chunks of the string. |
| Encoder.ChunkConcat | encode_payload.py:43-45 | The chunks concatenate back to the Base64 string. |
| Encoder.ChunkWidths | encode_payload.py:43-45 | Every chunk but the last has exactly `line_length` characters. The last has between 1 and `line_length`. |
| Encoder.ChunkCount | encode_payload.py:43-45 | The number of chunks n satisfies (n-1)·w < len ≤ n·w, i.e. ⌈len/w⌉, so an empty encoding gives no lines. |
| Encoder.Lines | encode_payload.py:40-45 | The lines concatenate back to the Base64 string. With a non-positive width there is exactly one line. |
| Encoder.EncodeLines | encode_payload.py:40-56 | `output_lines` is empty exactly for empty input, a positive line length and no markers. |
| Encoder.EncodeText | encode_payload.py:58 | `output_content` starts with the BEGIN marker when markers are on. Without markers and wrapping, it is the bare Base64 encoding. |
| Encoder.Wrap | encode_payload.py:48-56 | With markers, the output is the BEGIN marker, the lines and the END marker. Without them, it is exactly the lines. |
| Encoder.HeaderWithoutWrapping | encode_payload.py:40-56 | Markers with a non-positive width give exactly three lines: BEGIN, the whole encoding, END. |
| Encoder.ChunkInAlphabet | encode_payload.py:43-45 | Chunks of alphabet text consist only of alphabet characters. |
| Encoder.LinesInAlphabet | encode_payload.py:35-45 | Every encoded line consists only of alphabet symbols and `=`. |
| Encoder.EncodeLineAt | encode_payload.py:48-56 | Each output line is a marker or a line of alphabet characters. |
| Encoder.EncodeLinesPlain | encode_payload.py:48-56 | Every output line is ASCII without carriage returns. |
| Encoder.JoinPlain | encode_payload.py:58 | Joining such lines with line feeds keeps the text ASCII and free of carriage returns. |
| Encoder.EncodeTextPlain | encode_payload.py:58 | `output_content` is ASCII and holds no carriage return. |
| Encoder.SplitEncodeText | encode_payload.py:58 | Splitting `output_content` on `'\n'` gives back `output_lines`, provided there is at least one output line. For empty input at a positive width without markers, `output_lines` is `[]` but the split gives `['']`. That blank line is harmless, because the decoder drops it (RoundTrip.EmptyPayload). |
| Encoder.OutputName | encode_payload.py:61-63 | The default output path (stem plus `.txt`) is the input path itself exactly when the input's extension is `.txt`. |
| Encoder.OverwritesTextInput | encode_payload.py:61-63 | Hence encoding `<stem>.txt` with the default name writes over the input file. |
| Encoder.EncodeFile | encode_payload.py:35-68 | A run always writes, because its text is ASCII. It writes to the path given with `-o`, or else to the default name. The bytes written read back as `output_content`. |
| Decoder.FilterLines | decode_payload.py:37-43 | The loop keeps at most as many lines as it reads. FilterMember and FilterSubsequence say which ones. |
| Decoder.FilterShorter | decode_payload.py:37-46 | Stripping and dropping lines never lengthens their concatenation. |
| Decoder.Payload | decode_payload.py:34-46 | `base64_string` is never longer than the text that was read. |
| Decoder.DecodeText | decode_payload.py:46-53 | Any bytes the decoder returns re-encode to exactly `base64_string`. |
| Decoder.DecodeTextFails | decode_payload.py:49-53 | Decoding fails if and only if no byte string encodes to `base64_string`. |
| Decoder.OutputName | decode_payload.py:56-58 | The default output path starts with the input's stem and never equals the input path. |
| Decoder.DecodeFile | decode_payload.py:27-63 | A run writes only when the input is ASCII and its payload decodes. The bytes written re-encode to that payload. They go to the path given with `-o`, or else to the default name. |
| Decoder.DecodeFileOfText | decode_payload.py:49-63 | For a file whose text holds no carriage return: if decoding that text fails, nothing is written. Otherwise the decoded bytes are written to the default name. |
| Decoder.FilterLinesClean | decode_payload.py:37-43 | Every kept line is non-empty and has no surrounding whitespace. With header removal, no kept line mentions either marker. |
| Decoder.AllCleanAt | decode_payload.py:37-43 | The same holds of the kept line at every index. |
| Decoder.FilterAppend | decode_payload.py:37-43 | The filter works line by line: filtering appended lists appends the results. |
| Decoder.FilterMember | decode_payload.py:37-43 | A line is kept if and only if some input line strips to it and the line is non-empty and, with header removal, mentions no marker. |
| Decoder.FilterSubsequence | decode_payload.py:37-43 | The kept lines are an order-preserving subsequence of the stripped input lines. |
| Decoder.StripAllAt | decode_payload.py:37-38 | The stripped-lines sequence holds, at each index, that input line stripped. |
| Decoder.KeepHeadersDropsOnlyBlank | decode_payload.py:39-42 | With `--keep-headers`, when no line is blank every stripped line is kept. |
| Decoder.IgnoresBlankLine | decode_payload.py:39-40 | Inserting a whitespace-only line anywhere does not change the kept lines. |
| Decoder.IgnoresPadding | decode_payload.py:37-38 | Surrounding any line with whitespace does not change the kept lines. |
| Decoder.FilterStripped | decode_payload.py:37-43 | The kept lines depend only on the non-blank stripped input lines. |
| Decoder.PayloadIgnoresLayout | decode_payload.py:34-46 | Two texts whose non-blank lines are the same after stripping give the same `base64_string`, whatever their blank lines and surrounding whitespace. |
| RoundTrip.AlphabetLineKept | decode_payload.py:37-43 | An encoded line strips to itself and, unless empty, is kept. |
| RoundTrip.NoSpaceNotMarker | decode_payload.py:41 | A line without whitespace never mentions a marker, because both markers contain a space. |
| RoundTrip.FilterAlphabetLines | decode_payload.py:37-46 | Filtering encoded lines leaves their concatenation unchanged. |
| RoundTrip.BeginMarkerMentionsTag | encode_payload.py:51 | The encoder's BEGIN marker contains `BEGIN CERTIFICATE`. |
| RoundTrip.EndMarkerMentionsTag | encode_payload.py:56 | The encoder's END marker contains `END CERTIFICATE`. |
| RoundTrip.MarkersDropped | decode_payload.py:41-42 | With header removal, both marker lines the encoder writes are dropped. |
| RoundTrip.FilterFramed | decode_payload.py:37-43 | With header removal, lines framed by the two markers filter like the lines alone. |
| RoundTrip.FilterEncodeLines | decode_payload.py:37-46 | Filtering the encoder's output lines and concatenating gives exactly the Base64 encoding. |
| RoundTrip.PayloadOfEncodeText | decode_payload.py:34-46 | `base64_string` extracted from the encoder's `output_content` is the encoding of the original bytes. |
| RoundTrip.TextRoundTrip | decode_payload.py:5 | For all bytes, line lengths and header flags, decoding the encoder's text gives back the bytes, whenever added markers are removed. |
| RoundTrip.FileRoundTrip | decode_payload.py:5 | Decoding the file the encoder writes, with default naming, writes the original bytes to `<name>_decoded`. |
| RoundTrip.CrLfFileRoundTrip | encode_payload.py:67-68 | Where a text-mode write stores `\r\n` line ends, the file the encoder writes is still ASCII. Decoding it with default naming writes the original bytes. |
| RoundTrip.NamesRoundTrip | decode_payload.py:56-58 | Default names compose: encoding `<stem><ext>` and then decoding yields `<stem>_decoded`. The stem's final component must not be all dots. |
| RoundTrip.VectorEmpty | encode_payload.py:35 | Section 10 of RFC 4648: empty input encodes to the empty text, and back. |
| RoundTrip.VectorF | encode_payload.py:35 | `f` encodes to `Zg==`, and `Zg==` decodes to `f`. |
| RoundTrip.VectorFo | encode_payload.py:35 | `fo` encodes to `Zm8=`, and back. |
| RoundTrip.VectorFoo | encode_payload.py:35 | `foo` encodes to `Zm9v`, and back. |
| RoundTrip.VectorFoob | encode_payload.py:35 | `foob` encodes to `Zm9vYg==`, and back. |
| RoundTrip.VectorFooba | encode_payload.py:35 | `fooba` encodes to `Zm9vYmE=`, and back. |
| RoundTrip.VectorFoobar | encode_payload.py:35 | `foobar` encodes to `Zm9vYmFy`, and back. |
| RoundTrip.HelloEncoding | encode_payload.py:35 | `hello` encodes to `aGVsbG8=`. |
| RoundTrip.HelloExample | encode_payload.py:35-45 | `hello` with width 4 and no markers gives the lines `aGVs` and `bG8=`, and `aGVs\nbG8=` decodes back to `hello`. |
| RoundTrip.SingleLinePayload | decode_payload.py:34-46 | A single line without whitespace is the whole of `base64_string`. |
| RoundTrip.InvalidExample | decode_payload.py:49-53 | `not-base64!!!` is refused. |

## Left out

- Opening, reading and writing files: existence checks, permission and I/O errors, `os.path.getsize`, `argparse`, `main` and exit codes (encode_payload.py:27-32, 66-71; decode_payload.py:26-31, 61-66). A run is modelled from the bytes of the input to the file it writes. The only failures kept are the ones the content causes: input that is not ASCII, and a payload that is not Base64.
- Statistics, the `certutil` usage hint and the extension-based execution hints are only printed, so they are left out.
- Decoder.DecodeText: it uses a strict RFC 4648 decoder that accepts exactly the encoder's outputs. CPython's `base64.b64decode` without `validate=True` first discards characters outside the alphabet and is lenient about some padding. The model refuses some texts CPython would decode. The round trip is stated for encoder-produced text only. For the same reason, nothing is claimed about `--keep-headers` on marker-wrapped input. Under CPython that input need not fail, because discarding `-` and spaces from `-----BEGIN CERTIFICATE-----` leaves 16 alphabet characters, so such a run does not always fail.
- Paths.SplitExt: only `/` is a separator. The Windows `ntpath` rules, with `\` and drive letters, are left out.
- Encoder.EncodeFile: writing in text mode translates `\n` to `os.linesep`. That translation is the identity on POSIX, and `EncodeFile` leaves it out. `Text.CrLfNewlines` models the `\r\n` case. `RoundTrip.CrLfFileRoundTrip` proves that the decoder's universal-newline read undoes it, so the round trip survives.
- Text.Strip: `str.strip()` also removes non-ASCII whitespace. Only ASCII whitespace is modelled, because the decoder reads its input as ASCII, so no other character can occur.
