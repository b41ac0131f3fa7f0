/** The Python string operations the encoder and decoder are built from:
    `str.split(sep)`, `sep.join(lines)`, `''.join(lines)`, `str.strip()`,
    the `in` substring test, and the newline translation of text-mode reads. */
module Text {

  /** Python's `str.isspace()` restricted to ASCII: tab, line feed, vertical
      tab, form feed, carriage return (9..13), the four information
      separators (28..31) and space (32). */
  predicate IsSpace(c: char) {
    9 <= c as int <= 13 || 28 <= c as int <= 32
  }

  predicate NoSpace(s: string) {
    forall i :: 0 <= i < |s| ==> !IsSpace(s[i])
  }

  /** Neither end of `s` is whitespace: what `str.strip()` guarantees. */
  predicate Trimmed(s: string) {
    s == [] || (!IsSpace(s[0]) && !IsSpace(s[|s| - 1]))
  }

  /** `s.lstrip()`: the suffix left after every leading space is dropped. */
  function TrimStart(s: string): (r: string)
    ensures r == [] || !IsSpace(r[0])
    decreases |s|
  {
    if |s| > 0 && IsSpace(s[0]) then TrimStart(s[1..]) else s
  }

  /** `lstrip` drops a prefix of `s` made of spaces only. */
  lemma {:induction false} TrimStartDropsSpaces(s: string)
    ensures var r := TrimStart(s);
      |r| <= |s| && r == s[|s| - |r|..] && forall i :: 0 <= i < |s| - |r| ==> IsSpace(s[i])
    decreases |s|
  {
    if |s| > 0 && IsSpace(s[0]) {
      TrimStartDropsSpaces(s[1..]);
      var r := TrimStart(s);
      assert s[1..][|s| - 1 - |r|..] == s[|s| - |r|..];
      forall i | 0 <= i < |s| - |r| ensures IsSpace(s[i]) {
        if i > 0 {
          assert s[i] == s[1..][i - 1];
        }
      }
    }
  }

  /** `s.rstrip()`: the prefix left after every trailing space is dropped. */
  function TrimEnd(s: string): (r: string)
    ensures r == [] || !IsSpace(r[|r| - 1])
    decreases |s|
  {
    if |s| > 0 && IsSpace(s[|s| - 1]) then TrimEnd(s[..|s| - 1]) else s
  }

  /** `rstrip` drops a suffix of `s` made of spaces only. */
  lemma {:induction false} TrimEndDropsSpaces(s: string)
    ensures var r := TrimEnd(s);
      |r| <= |s| && r == s[..|r|] && forall i :: |r| <= i < |s| ==> IsSpace(s[i])
    decreases |s|
  {
    if |s| > 0 && IsSpace(s[|s| - 1]) {
      TrimEndDropsSpaces(s[..|s| - 1]);
      var r := TrimEnd(s);
      assert s[..|s| - 1][..|r|] == s[..|r|];
      forall i | |r| <= i < |s| ensures IsSpace(s[i]) {
        if i < |s| - 1 {
          assert s[i] == s[..|s| - 1][i];
        }
      }
    }
  }

  /** `s.strip()`. */
  function Strip(s: string): (r: string)
    ensures Trimmed(r)
  {
    var t := TrimStart(s);
    var r := TrimEnd(t);
    TrimEndDropsSpaces(t);
    assert r == [] || r[0] == t[0];
    r
  }

  /** Stripping leaves a string alone exactly when neither end is a space. */
  lemma StripFixedPoint(s: string)
    ensures Strip(s) == s <==> Trimmed(s)
  {
  }

  /** Stripping is blind to any amount of surrounding whitespace. */
  lemma {:induction false} StripIgnoresPadding(pre: string, s: string, post: string)
    requires forall i :: 0 <= i < |pre| ==> IsSpace(pre[i])
    requires forall i :: 0 <= i < |post| ==> IsSpace(post[i])
    ensures Strip(pre + s + post) == Strip(s)
  {
    assert pre + s + post == pre + (s + post);
    TrimStartPadded(pre, s + post);
    if TrimStart(s) != [] {
      TrimStartAppend(s, post);
      TrimEndPadded(TrimStart(s), post);
    } else {
      TrimStartDropsSpaces(s);
      var t := s + post;
      assert forall i :: 0 <= i < |t| ==> IsSpace(t[i]) by {
        forall i | 0 <= i < |t| ensures IsSpace(t[i]) {
          if i >= |s| { assert t[i] == post[i - |s|]; }
        }
      }
      TrimStartPadded(t, []);
      assert t + [] == t;
    }
  }

  lemma {:induction false} TrimStartPadded(pre: string, s: string)
    requires forall i :: 0 <= i < |pre| ==> IsSpace(pre[i])
    ensures TrimStart(pre + s) == TrimStart(s)
    decreases |pre|
  {
    if |pre| > 0 {
      assert (pre + s)[1..] == pre[1..] + s;
      TrimStartPadded(pre[1..], s);
    } else {
      assert pre + s == s;
    }
  }

  lemma {:induction false} TrimEndPadded(s: string, post: string)
    requires forall i :: 0 <= i < |post| ==> IsSpace(post[i])
    ensures TrimEnd(s + post) == TrimEnd(s)
    decreases |post|
  {
    if |post| > 0 {
      assert (s + post)[..|s + post| - 1] == s + post[..|post| - 1];
      TrimEndPadded(s, post[..|post| - 1]);
    } else {
      assert s + post == s;
    }
  }

  /** Once a non-space has been reached, `lstrip` keeps everything after it. */
  lemma {:induction false} TrimStartAppend(s: string, post: string)
    requires TrimStart(s) != []
    ensures TrimStart(s + post) == TrimStart(s) + post
    decreases |s|
  {
    if IsSpace(s[0]) {
      assert (s + post)[1..] == s[1..] + post;
      TrimStartAppend(s[1..], post);
    }
  }

  /** `sep.join(lines)`: the lines with one separator between neighbours and
      none at the end. */
  function Join(lines: seq<string>, sep: char): (r: string)
    ensures |lines| == 0 ==> r == []
    ensures |lines| > 0 ==> |r| == |Concat(lines)| + |lines| - 1
    decreases |lines|
  {
    if |lines| == 0 then []
    else if |lines| == 1 then lines[0]
    else lines[0] + [sep] + Join(lines[1..], sep)
  }

  /** `s.split(sep)`: the maximal separator-free pieces between separators;
      there is always one more piece than separators. */
  function Split(s: string, sep: char): (r: seq<string>)
    ensures |r| >= 1
    ensures forall i :: 0 <= i < |r| ==> sep !in r[i]
    decreases |s|
  {
    if |s| == 0 then [[]]
    else
      var rest := Split(s[1..], sep);
      if s[0] == sep then [[]] + rest
      else [[s[0]] + rest[0]] + rest[1..]
  }

  /** Splitting a joined text gives back the lines, provided there is at
      least one line and no line holds the separator. */
  lemma {:induction false} SplitJoin(lines: seq<string>, sep: char)
    requires |lines| >= 1
    requires forall i :: 0 <= i < |lines| ==> sep !in lines[i]
    ensures Split(Join(lines, sep), sep) == lines
    decreases |lines|
  {
    if |lines| == 1 {
      SplitNoSep(lines[0], sep);
    } else {
      SplitJoin(lines[1..], sep);
      SplitPrefix(lines[0], sep, Join(lines[1..], sep));
    }
  }

  /** A separator-free string splits into itself alone. */
  lemma {:induction false} SplitNoSep(s: string, sep: char)
    requires sep !in s
    ensures Split(s, sep) == [s]
    decreases |s|
  {
    if |s| > 0 {
      SplitNoSep(s[1..], sep);
      assert [s[0]] + s[1..] == s;
    }
  }

  /** Splitting `head + sep + tail` puts `head` in front of the pieces of `tail`. */
  lemma {:induction false} SplitPrefix(head: string, sep: char, tail: string)
    requires sep !in head
    ensures Split(head + [sep] + tail, sep) == [head] + Split(tail, sep)
    decreases |head|
  {
    if |head| == 0 {
      assert head + [sep] + tail == [sep] + tail;
      assert ([sep] + tail)[1..] == tail;
    } else {
      assert (head + [sep] + tail)[1..] == head[1..] + [sep] + tail;
      SplitPrefix(head[1..], sep, tail);
      assert [head[0]] + head[1..] == head;
    }
  }

  /** Joining the pieces of a split restores the text. */
  lemma {:induction false} JoinSplit(s: string, sep: char)
    ensures Join(Split(s, sep), sep) == s
    decreases |s|
  {
    if |s| > 0 {
      JoinSplit(s[1..], sep);
      var rest := Split(s[1..], sep);
      if s[0] == sep {
        var pieces := [[]] + rest;
        assert Split(s, sep) == pieces;
        assert pieces[0] == [] && pieces[1..] == rest;
        assert Join(pieces, sep) == [] + [sep] + Join(rest, sep);
        assert s == [] + [sep] + s[1..];
      } else {
        var pieces := [[s[0]] + rest[0]] + rest[1..];
        assert Split(s, sep) == pieces;
        if |rest| == 1 {
          assert Join(pieces, sep) == [s[0]] + rest[0];
          assert s == [s[0]] + s[1..];
        } else {
          assert pieces[1..] == rest[1..];
          assert Join(rest, sep) == rest[0] + [sep] + Join(rest[1..], sep);
          assert Join(pieces, sep) == [s[0]] + rest[0] + [sep] + Join(rest[1..], sep);
          assert s == [s[0]] + s[1..];
        }
      }
    }
  }

  /** `''.join(lines)`: empty exactly when every line is. */
  function Concat(lines: seq<string>): (r: string)
    ensures r == [] <==> forall i :: 0 <= i < |lines| ==> lines[i] == []
    decreases |lines|
  {
    if |lines| == 0 then [] else lines[0] + Concat(lines[1..])
  }

  /** Concatenation distributes over appending lists of lines. */
  lemma {:induction false} ConcatAppend(a: seq<string>, b: seq<string>)
    ensures Concat(a + b) == Concat(a) + Concat(b)
    decreases |a|
  {
    if |a| > 0 {
      assert (a + b)[1..] == a[1..] + b;
      ConcatAppend(a[1..], b);
    } else {
      assert a + b == b;
    }
  }

  /** The `in` operator on strings: `pat` occurs as a contiguous piece of
      `s`. The empty pattern occurs everywhere; a longer one never does. */
  function Contains(s: string, pat: string): (b: bool)
    ensures pat == [] ==> b
    ensures b ==> |pat| <= |s|
    decreases |s|
  {
    pat <= s || (|s| > 0 && Contains(s[1..], pat))
  }

  /** `pat` sits in `s` starting at index `i`. */
  predicate OccursAt(s: string, pat: string, i: int) {
    0 <= i <= |s| - |pat| && s[i..i + |pat|] == pat
  }

  /** `Contains` holds exactly when the pattern sits at some index. */
  lemma {:induction false} ContainsAt(s: string, pat: string)
    ensures Contains(s, pat) <==> exists i :: OccursAt(s, pat, i)
    decreases |s|
  {
    if |s| > 0 {
      ContainsAt(s[1..], pat);
      if Contains(s[1..], pat) {
        var i :| OccursAt(s[1..], pat, i);
        assert OccursAt(s, pat, i + 1);
      }
      if pat <= s {
        assert OccursAt(s, pat, 0);
      }
      if exists i :: OccursAt(s, pat, i) {
        var i :| OccursAt(s, pat, i);
        if i > 0 {
          assert OccursAt(s[1..], pat, i - 1);
        } else {
          assert pat <= s;
        }
      }
    } else if pat == [] {
      assert OccursAt(s, pat, 0);
    }
  }

  /** A pattern holding a space never occurs in a string free of spaces. */
  lemma {:induction false} NoSpaceNoMatch(s: string, pat: string, k: nat)
    requires k < |pat| && pat[k] == ' '
    requires NoSpace(s)
    ensures !Contains(s, pat)
    decreases |s|
  {
    if k < |s| {
      assert !IsSpace(s[k]);
      assert s[k] != pat[k];
    }
    assert !(pat <= s);
    if |s| > 0 {
      NoSpaceNoMatch(s[1..], pat, k);
    }
  }

  /** The translation a text-mode `read()` applies with universal newlines:
      `\r\n` and a lone `\r` both become `\n`. */
  function UniversalNewlines(s: string): (r: string)
    ensures |r| <= |s|
    ensures '\r' !in r
    decreases |s|
  {
    if |s| == 0 then []
    else if s[0] == '\r' then
      if |s| > 1 && s[1] == '\n' then ['\n'] + UniversalNewlines(s[2..])
      else ['\n'] + UniversalNewlines(s[1..])
    else [s[0]] + UniversalNewlines(s[1..])
  }

  /** Text that holds no carriage return is read back unchanged. */
  lemma {:induction false} UniversalNewlinesIdentity(s: string)
    requires '\r' !in s
    ensures UniversalNewlines(s) == s
    decreases |s|
  {
    if |s| > 0 {
      assert '\r' !in s[1..] by {
        forall c | c in s[1..] ensures c in s { }
      }
      UniversalNewlinesIdentity(s[1..]);
      assert [s[0]] + s[1..] == s;
    }
  }

  /** Text before the first carriage return is read as it is. */
  lemma {:induction false} UniversalNewlinesAppend(a: string, b: string)
    requires '\r' !in a
    ensures UniversalNewlines(a + b) == a + UniversalNewlines(b)
    decreases |a|
  {
    if |a| > 0 {
      assert (a + b)[0] == a[0] && (a + b)[1..] == a[1..] + b;
      assert '\r' !in a[1..] by {
        forall c | c in a[1..] ensures c in a { }
      }
      UniversalNewlinesAppend(a[1..], b);
      assert [a[0]] + (a[1..] + UniversalNewlines(b)) == a + UniversalNewlines(b);
    } else {
      assert a + b == b;
    }
  }

  /** A `\r\n` pair is read as a single line feed. */
  lemma UniversalNewlinesCrLf(a: string, b: string)
    requires '\r' !in a
    ensures UniversalNewlines(a + "\r\n" + b) == a + "\n" + UniversalNewlines(b)
  {
    var t := "\r\n" + b;
    assert a + "\r\n" + b == a + t;
    UniversalNewlinesAppend(a, t);
    assert UniversalNewlines(t) == "\n" + UniversalNewlines(b) by {
      assert t[0] == '\r' && t[1] == '\n' && t[2..] == b;
    }
  }

  /** A carriage return not followed by a line feed is read as a line feed. */
  lemma UniversalNewlinesLoneCr(a: string, b: string)
    requires '\r' !in a
    requires b == [] || b[0] != '\n'
    ensures UniversalNewlines(a + "\r" + b) == a + "\n" + UniversalNewlines(b)
  {
    var t := ['\r'] + b;
    assert a + "\r" + b == a + t;
    LoneCrHead(b);
    UniversalNewlinesAppend(a, t);
  }

  lemma LoneCrHead(b: string)
    requires b == [] || b[0] != '\n'
    ensures UniversalNewlines(['\r'] + b) == ['\n'] + UniversalNewlines(b)
  {
    var t := ['\r'] + b;
    assert t[0] == '\r' && t[1..] == b;
    assert !(|t| > 1 && t[1] == '\n');
  }

  /** The translation a text-mode `write()` applies where `os.linesep` is
      `\r\n`: every line feed is written as a carriage return and a line feed. */
  function CrLfNewlines(s: string): (r: string)
    ensures |r| >= |s|
    ensures '\n' !in s ==> r == s
    decreases |s|
  {
    if |s| == 0 then []
    else if s[0] == '\n' then "\r\n" + CrLfNewlines(s[1..])
    else [s[0]] + CrLfNewlines(s[1..])
  }

  /** Reading back with universal newlines undoes the `\r\n` translation of
      text that held no carriage return. */
  lemma {:induction false} UniversalNewlinesUndoesCrLf(s: string)
    requires '\r' !in s
    ensures UniversalNewlines(CrLfNewlines(s)) == s
    decreases |s|
  {
    if |s| > 0 {
      assert '\r' !in s[1..] by {
        forall c | c in s[1..] ensures c in s { }
      }
      UniversalNewlinesUndoesCrLf(s[1..]);
      var t := CrLfNewlines(s);
      if s[0] == '\n' {
        assert t[0] == '\r' && t[1] == '\n' && t[2..] == CrLfNewlines(s[1..]);
      } else {
        assert t[0] == s[0] && t[1..] == CrLfNewlines(s[1..]);
      }
      assert [s[0]] + s[1..] == s;
    }
  }
}
