/** The few Python `str` methods the core relies on, over `seq<char>`. */
module PyText {

  /** `s.startswith(p)`: the first `|p|` characters of `s` are those of `p`, one by one. */
  function StartsWith(s: string, p: string): (b: bool)
    ensures b <==> |p| <= |s| && forall k :: 0 <= k < |p| ==> s[k] == p[k]
  {
    |p| <= |s| && s[..|p|] == p
  }

  /** Number of occurrences of `c` in `s`. */
  function Count(s: string, c: char): (n: nat)
  {
    if s == [] then 0 else (if s[0] == c then 1 else 0) + Count(s[1..], c)
  }

  /** `s.split(sep)` for a one-character separator: the pieces between separators, in order.
      There is one more piece than separators, and no piece holds the separator. */
  function Split(s: string, sep: char): (parts: seq<string>)
    ensures |parts| == Count(s, sep) + 1
    ensures forall k :: 0 <= k < |parts| ==> sep !in parts[k]
    decreases |s|
  {
    if s == [] then [[]]
    else
      var tail := Split(s[1..], sep);
      if s[0] == sep then [[]] + tail
      else
        assert sep !in [s[0]] + tail[0];
        [[s[0]] + tail[0]] + tail[1..]
  }

  /** `s.rstrip(c)`: `s` without its trailing run of `c`. */
  function RStrip(s: string, c: char): (r: string)
    ensures |r| <= |s| && s[..|r|] == r
    ensures r == [] || r[|r| - 1] != c
    ensures forall k :: |r| <= k < |s| ==> s[k] == c
  {
    if s == [] || s[|s| - 1] != c then s else RStrip(s[..|s| - 1], c)
  }

  /** Stripping appended copies of `c` from a string that does not end in `c` gives it back. */
  lemma {:induction false} RStripPadding(s: string, pad: string, c: char)
    requires s == [] || s[|s| - 1] != c
    requires forall k :: 0 <= k < |pad| ==> pad[k] == c
    ensures RStrip(s + pad, c) == s
    decreases |pad|
  {
    if pad != [] {
      var p' := pad[..|pad| - 1];
      assert (s + pad)[..|s + pad| - 1] == s + p';
      RStripPadding(s, p', c);
    } else {
      assert s + pad == s;
    }
  }

  /** Position of the first `c` in `s`, or `|s|` when there is none. */
  function Find(s: string, c: char): (i: nat)
    ensures i <= |s|
    ensures c !in s[..i]
    ensures i < |s| ==> s[i] == c
    ensures i == |s| <==> c !in s
  {
    if s == [] then 0
    else if s[0] == c then 0
    else
      var j := Find(s[1..], c);
      assert s[..j + 1] == [s[0]] + s[1..][..j];
      1 + j
  }

  /** The first piece of a split runs up to the first separator; the remaining pieces split what follows it. */
  lemma {:induction false} SplitAtFirst(s: string, sep: char)
    ensures Split(s, sep)[0] == s[..Find(s, sep)]
    ensures Find(s, sep) < |s| ==> Split(s, sep)[1..] == Split(s[Find(s, sep) + 1..], sep)
    ensures Find(s, sep) == |s| ==> |Split(s, sep)| == 1
    decreases |s|
  {
    if s != [] && s[0] != sep {
      var t := s[1..];
      SplitAtFirst(t, sep);
      var j := Find(t, sep);
      assert s[..j + 1] == [s[0]] + t[..j];
      assert j < |t| ==> s[j + 2..] == t[j + 1..];
    }
  }
}
