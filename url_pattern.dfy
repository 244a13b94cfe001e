/**
 * The regular expressions that `ExternalAccountForm.clean` builds from an account type's URL
 * template: `{identifier}` becomes the greedy group `(.+)`, and `re.match` anchors the pattern at
 * the start of the input only. In this model `.` in a template is the any-character-but-newline
 * class, as in Python; every other template character is matched literally.
 */
module UrlPattern {
  import opened Wrappers
  import opened PyText

  /** One element of a compiled pattern. */
  datatype Token =
    | Lit(c: char)   // a literal character
    | AnyChar        // `.`
    | Group          // `(.+)`

  const Placeholder: string := "{identifier}"

  /** `url.replace('{identifier}', '(.+)')`, read as a pattern. A template without the
      placeholder becomes one token per character: `.` the any-character class, the rest literals. */
  function Compile(url: string): (p: seq<Token>)
    ensures |p| <= |url|
    ensures '{' !in url ==> |p| == |url|
    ensures '{' !in url ==> forall k :: 0 <= k < |url| ==> p[k] == if url[k] == '.' then AnyChar else Lit(url[k])
    decreases |url|
  {
    if url == [] then []
    else if StartsWith(url, Placeholder) then
      assert url[0] == Placeholder[0] == '{';
      [Group] + Compile(url[|Placeholder|..])
    else [if url[0] == '.' then AnyChar else Lit(url[0])] + Compile(url[1..])
  }

  /** `pattern.rstrip('/')`: drop trailing literal slashes. */
  function StripSlashes(p: seq<Token>): (r: seq<Token>)
    ensures |r| <= |p| && p[..|r|] == r
    ensures r == [] || r[|r| - 1] != Lit('/')
    ensures forall k :: |r| <= k < |p| ==> p[k] == Lit('/')
  {
    if p == [] || p[|p| - 1] != Lit('/') then p else StripSlashes(p[..|p| - 1])
  }

  /** Length of the run of non-newline characters at the start of `s`: how far `.+` can reach. */
  function DotRun(s: string): (n: nat)
    ensures n <= |s|
    ensures '\n' !in s ==> n == |s|
  {
    Find(s, '\n')
  }

  /** `re.match(p, s)` with backtracking: the groups of the first match found, or `None`; a match
      has one group per `(.+)` of the pattern. */
  function MatchFrom(p: seq<Token>, s: string): (r: Option<seq<string>>)
    ensures r.Some? ==> |r.value| == CountGroups(p)
    decreases |p|, |s| + 1
  {
    if p == [] then Some([])
    else match p[0]
      case Lit(c) => if s != [] && s[0] == c then MatchFrom(p[1..], s[1..]) else None
      case AnyChar => if s != [] && s[0] != '\n' then MatchFrom(p[1..], s[1..]) else None
      case Group => TryGroup(p[1..], s, DotRun(s))
  }

  /** A group spanning the first `n` characters, then ever shorter ones (greedy `.+`); the group
      is a non-empty prefix of at most `n` characters. */
  function TryGroup(rest: seq<Token>, s: string, n: nat): (r: Option<seq<string>>)
    requires n <= |s|
    ensures r.Some? ==> |r.value| == CountGroups(rest) + 1
    ensures r.Some? ==> 1 <= |r.value[0]| <= n && r.value[0] == s[..|r.value[0]|]
    decreases |rest| + 1, n
  {
    if n == 0 then None
    else match MatchFrom(rest, s[n..])
      case Some(groups) => Some([s[..n]] + groups)
      case None => TryGroup(rest, s, n - 1)
  }

  /** The group is the longest prefix of at most `n` characters after which the rest of the pattern
      matches, the other groups are that match's; there is no match when no non-empty prefix works. */
  lemma {:induction false} TryGroupIsGreedy(rest: seq<Token>, s: string, n: nat)
    requires n <= |s|
    ensures var r := TryGroup(rest, s, n);
            r.Some? ==> && MatchFrom(rest, s[|r.value[0]|..]) == Some(r.value[1..])
                        && forall j :: |r.value[0]| < j <= n ==> MatchFrom(rest, s[j..]).None?
    ensures TryGroup(rest, s, n).None? ==> forall j :: 1 <= j <= n ==> MatchFrom(rest, s[j..]).None?
    decreases n
  {
    if n > 0 {
      match MatchFrom(rest, s[n..])
      case Some(groups) =>
        var r := TryGroup(rest, s, n);
        assert r == Some([s[..n]] + groups);
        assert |r.value[0]| == n && r.value[1..] == groups;
      case None =>
        TryGroupIsGreedy(rest, s, n - 1);
        assert TryGroup(rest, s, n) == TryGroup(rest, s, n - 1);
    }
  }

  /** Number of `(.+)` groups in a pattern. */
  function CountGroups(p: seq<Token>): (n: nat)
  {
    if p == [] then 0 else (if p[0] == Group then 1 else 0) + CountGroups(p[1..])
  }

  /** A template prefix without `{` compiles piece by piece. */
  lemma {:induction false} CompilePrefix(prefix: string, tail: string)
    requires '{' !in prefix
    ensures Compile(prefix + tail) == Compile(prefix) + Compile(tail)
    decreases |prefix|
  {
    if prefix != [] {
      var u := prefix + tail;
      assert u[0] == prefix[0] != '{';
      assert !StartsWith(u, Placeholder);
      assert u[1..] == prefix[1..] + tail;
      CompilePrefix(prefix[1..], tail);
    } else {
      assert prefix + tail == tail;
    }
  }

  /** The placeholder compiles to one group. */
  lemma CompilePlaceholder(tail: string)
    ensures Compile(Placeholder + tail) == [Group] + Compile(tail)
  {
    var u := Placeholder + tail;
    assert StartsWith(u, Placeholder) by { assert u[..|Placeholder|] == Placeholder; }
    assert u[|Placeholder|..] == tail;
  }

  /** Trailing slashes of a template compile to literal slashes. */
  lemma {:induction false} CompileSlashes(slashes: string)
    requires forall k :: 0 <= k < |slashes| ==> slashes[k] == '/'
    ensures |Compile(slashes)| == |slashes|
    ensures forall k :: 0 <= k < |slashes| ==> Compile(slashes)[k] == Lit('/')
    decreases |slashes|
  {
    if slashes != [] {
      assert !StartsWith(slashes, Placeholder) by { assert slashes[0] != Placeholder[0]; }
      CompileSlashes(slashes[1..]);
    }
  }

  /** Stripping literal slashes after a group leaves the part up to the group. */
  lemma {:induction false} StripAfterGroup(p: seq<Token>, slashes: seq<Token>)
    requires p != [] && p[|p| - 1] == Group
    requires forall k :: 0 <= k < |slashes| ==> slashes[k] == Lit('/')
    ensures StripSlashes(p + slashes) == p
    decreases |slashes|
  {
    if slashes == [] {
      assert p + slashes == p;
    } else {
      var q := slashes[..|slashes| - 1];
      assert (p + slashes)[..|p + slashes| - 1] == p + q;
      StripAfterGroup(p, q);
    }
  }

  /** The compiled literal prefix matches the prefix itself, leaving the rest of the input. */
  lemma {:induction false} PrefixMatches(prefix: string, p: seq<Token>, s: string)
    requires '{' !in prefix
    ensures MatchFrom(Compile(prefix) + p, prefix + s) == MatchFrom(p, s)
    decreases |prefix|
  {
    if prefix != [] {
      var u := prefix + s;
      assert !StartsWith(prefix, Placeholder) by { assert prefix[0] != Placeholder[0]; }
      var t := if prefix[0] == '.' then AnyChar else Lit(prefix[0]);
      assert Compile(prefix) == [t] + Compile(prefix[1..]);
      assert (Compile(prefix) + p)[0] == t;
      assert (Compile(prefix) + p)[1..] == Compile(prefix[1..]) + p;
      assert u[0] == prefix[0] && u[1..] == prefix[1..] + s;
      PrefixMatches(prefix[1..], p, s);
    } else {
      assert Compile(prefix) + p == p;
      assert prefix + s == s;
    }
  }

  /** A prefix without `{`, the placeholder and a tail compile piece by piece. */
  lemma CompileTemplate(prefix: string, tail: string)
    requires '{' !in prefix
    ensures Compile(prefix + Placeholder + tail) == Compile(prefix) + [Group] + Compile(tail)
  {
    var rest := Placeholder + tail;
    var url := prefix + rest;
    assert prefix + Placeholder + tail == url;
    var front, back := Compile(prefix), Compile(tail);
    calc {
      Compile(url);
      { CompilePrefix(prefix, rest); }
      front + Compile(rest);
      { CompilePlaceholder(tail); }
      front + ([Group] + back);
      front + [Group] + back;
    }
  }

  /** The pattern built from a prefix, the placeholder and trailing slashes is the prefix's pattern and one group. */
  lemma PrefixTemplatePattern(prefix: string, slashes: string)
    requires '{' !in prefix
    requires forall k :: 0 <= k < |slashes| ==> slashes[k] == '/'
    ensures StripSlashes(Compile(prefix + Placeholder + slashes)) == Compile(prefix) + [Group]
  {
    var head := Compile(prefix) + [Group];
    var tail := Compile(slashes);
    assert Compile(prefix + Placeholder + slashes) == head + tail by {
      CompileTemplate(prefix, slashes);
    }
    assert forall k :: 0 <= k < |tail| ==> tail[k] == Lit('/') by {
      CompileSlashes(slashes);
    }
    StripAfterGroup(head, tail);
  }

  /** A final group takes all of a one-line remainder. */
  lemma GroupTakesRest(prefix: string, rest: string)
    requires '{' !in prefix
    requires rest != [] && '\n' !in rest
    ensures MatchFrom(Compile(prefix) + [Group], prefix + rest) == Some([rest])
  {
    PrefixMatches(prefix, [Group], rest);
    var n := DotRun(rest);
    assert n == |rest|;
    assert [Group][1..] == [];
    assert MatchFrom([Group], rest) == TryGroup([], rest, n);
    assert MatchFrom([], rest[n..]) == Some([]);
    assert rest[..n] == rest;
    assert TryGroup([], rest, n) == Some([rest] + []);
    assert [rest] + [] == [rest];
  }

  /**
   * A template that is a fixed prefix followed by `{identifier}` (and perhaps slashes), applied to
   * an input that is that prefix followed by a non-empty one-line remainder (and perhaps slashes):
   * the remainder is what the group captures.
   */
  lemma PrefixTemplateCaptures(url: string, prefix: string, slashes: string, input: string, rest: string, trailing: string)
    requires url == prefix + Placeholder + slashes && input == prefix + rest + trailing
    requires '{' !in prefix
    requires forall k :: 0 <= k < |slashes| ==> slashes[k] == '/'
    requires forall k :: 0 <= k < |trailing| ==> trailing[k] == '/'
    requires rest != [] && rest[|rest| - 1] != '/' && '\n' !in rest
    ensures MatchFrom(StripSlashes(Compile(url)), RStrip(input, '/')) == Some([rest])
  {
    assert StripSlashes(Compile(url)) == Compile(prefix) + [Group] by {
      PrefixTemplatePattern(prefix, slashes);
    }
    assert RStrip(input, '/') == prefix + rest by {
      RStripPadding(prefix + rest, trailing, '/');
    }
    GroupTakesRest(prefix, rest);
  }
}
