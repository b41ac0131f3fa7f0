/** POSIX `os.path.splitext`, the only path operation the default output
    names rely on, and the write a successful run ends with. */
module Paths {
  import opened Ascii

  const Sep := '/'
  const ExtSep := '.'

  /** The file a successful run writes: its path and its bytes. */
  datatype FileWrite = FileWrite(path: string, data: seq<byte>)

  /** `s.rfind(c)`: the index of the last `c` in `s`, or -1 when there is none. */
  function RFind(s: string, c: char): (r: int)
    ensures -1 <= r < |s|
    ensures r == -1 <==> c !in s
    ensures r >= 0 ==> s[r] == c
    ensures forall k :: r < k < |s| ==> s[k] != c
    decreases |s|
  {
    if |s| == 0 then -1
    else if s[|s| - 1] == c then |s| - 1
    else
      assert s == s[..|s| - 1] + [s[|s| - 1]];
      RFind(s[..|s| - 1], c)
  }

  /** The last occurrence is the only index holding `c` with none after it. */
  lemma {:induction false} RFindUnique(s: string, c: char, i: int)
    requires 0 <= i < |s| && s[i] == c
    requires forall k :: i < k < |s| ==> s[k] != c
    ensures RFind(s, c) == i
    decreases |s|
  {
    if i < |s| - 1 {
      assert s[|s| - 1] != c;
      RFindUnique(s[..|s| - 1], c, i);
    }
  }

  /** The last path component: everything after the last separator. */
  function FinalComponent(p: string): (r: string)
    ensures Sep !in r
  {
    p[RFind(p, Sep) + 1..]
  }

  predicate HasNonDot(s: string) {
    exists i :: 0 <= i < |s| && s[i] != ExtSep
  }

  /** `os.path.splitext(p)` with `/` as the only separator: the extension
      starts at the last dot of the final component, provided some character
      before that dot in the component is not a dot (so `.bashrc` has none). */
  function SplitExt(p: string): (r: (string, string))
    ensures r.0 + r.1 == p
    ensures r.1 == [] || (r.1[0] == ExtSep && ExtSep !in r.1[1..] && Sep !in r.1)
  {
    var sepIndex := RFind(p, Sep);
    var dotIndex := RFind(p, ExtSep);
    if dotIndex > sepIndex && HasNonDot(p[sepIndex + 1..dotIndex]) then
      assert Sep !in p[dotIndex..] by {
        assert p[dotIndex..] == p[sepIndex + 1..][dotIndex - sepIndex - 1..];
      }
      assert p[dotIndex..][1..] == p[dotIndex + 1..];
      (p[..dotIndex], p[dotIndex..])
    else
      (p, [])
  }

  /** The last occurrence of `c` is unaffected by text that does not hold it. */
  lemma RFindAppend(s: string, t: string, c: char)
    requires c !in t
    ensures RFind(s + t, c) == RFind(s, c)
  {
    var q := RFind(s, c);
    if q >= 0 {
      RFindUnique(s + t, c, q);
    } else {
      assert forall k :: 0 <= k < |s + t| ==> (s + t)[k] != c by {
        forall k | 0 <= k < |s + t| ensures (s + t)[k] != c {
          if k < |s| { assert s[k] in s; } else { assert t[k - |s|] in t; }
        }
      }
    }
  }

  /** A name with a stem and a dot-free extension splits back into the two. */
  lemma SplitExtOf(root: string, ext: string)
    requires ExtSep !in ext && Sep !in ext
    requires HasNonDot(FinalComponent(root))
    ensures SplitExt(root + [ExtSep] + ext) == (root, [ExtSep] + ext)
  {
    var p := root + [ExtSep] + ext;
    assert p == root + ([ExtSep] + ext);
    RFindAppend(root, [ExtSep] + ext, Sep);
    RFindAppend(root + [ExtSep], ext, ExtSep);
    assert RFind(root + [ExtSep], ExtSep) == |root|;
    var sepIndex := RFind(root, Sep);
    assert p[sepIndex + 1..|root|] == FinalComponent(root);
    assert p[..|root|] == root;
    assert p[|root|..] == [ExtSep] + ext;
  }
}
