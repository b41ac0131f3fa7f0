/** Bytes and the ASCII codec Python applies when a file is opened in text
    mode with `encoding='ascii'`. */
module Ascii {
  import opened Wrappers

  /** An octet, the element type of Python's `bytes`. */
  type byte = b: int | 0 <= b < 256

  predicate IsAsciiChar(c: char) {
    c as int < 128
  }

  predicate IsAsciiText(s: string) {
    forall i :: 0 <= i < |s| ==> IsAsciiChar(s[i])
  }

  /** `data.decode('ascii')`: fails on the first byte at or above 0x80. */
  function BytesToText(data: seq<byte>): (r: Option<string>)
    ensures r.Some? ==> IsAsciiText(r.value) && |r.value| == |data|
    ensures r.Some? ==> forall i :: 0 <= i < |data| ==> r.value[i] as int == data[i]
  {
    if forall i :: 0 <= i < |data| ==> data[i] < 128 then
      Some(seq(|data|, i requires 0 <= i < |data| => data[i] as char))
    else
      None
  }

  /** `text.encode('ascii')`: fails on the first character outside ASCII. */
  function TextToBytes(s: string): (r: Option<seq<byte>>)
    ensures r.Some? ==> |r.value| == |s| && forall i :: 0 <= i < |s| ==> r.value[i] == s[i] as int < 128
  {
    if IsAsciiText(s) then
      Some(seq(|s|, i requires 0 <= i < |s| => s[i] as int as byte))
    else
      None
  }

  /** Encoding succeeds exactly on ASCII text, and decoding undoes it. */
  lemma TextToBytesToText(s: string)
    ensures TextToBytes(s).Some? <==> IsAsciiText(s)
    ensures IsAsciiText(s) ==> BytesToText(TextToBytes(s).value) == Some(s)
  {
    if IsAsciiText(s) {
      var b := TextToBytes(s).value;
      assert forall i :: 0 <= i < |b| ==> b[i] < 128;
      var t := BytesToText(b).value;
      assert forall i :: 0 <= i < |s| ==> t[i] == s[i];
      assert t == s;
    }
  }

  /** Decoding succeeds exactly on bytes below 0x80, and encoding undoes it. */
  lemma BytesToTextToBytes(data: seq<byte>)
    ensures BytesToText(data).Some? <==> forall i :: 0 <= i < |data| ==> data[i] < 128
    ensures BytesToText(data).Some? ==> TextToBytes(BytesToText(data).value) == Some(data)
  {
    if BytesToText(data).Some? {
      var t := BytesToText(data).value;
      var b := TextToBytes(t).value;
      assert forall i :: 0 <= i < |data| ==> b[i] == data[i];
      assert b == data;
    }
  }
}
