/** The data-URI prefix that `uploadFile` removes before base64 decoding: the
    regular expression `^data:image\/\w+;base64,` applied with a single,
    non-global `replace`, so at most one prefix, and only at position 0. */
module DataUri {
  import opened Wrappers

  const Head: string := "data:image/"
  const Tail: string := ";base64,"

  /** The `\w` class: ASCII letters, digits and underscore. */
  predicate IsWordChar(c: char)
  {
    ('a' <= c <= 'z') || ('A' <= c <= 'Z') || ('0' <= c <= '9') || c == '_'
  }

  /** `p` is a word of the language `data:image/` `\w+` `;base64,`. */
  predicate IsDataUriPrefix(p: string)
  {
    && |p| > |Head| + |Tail|
    && p[..|Head|] == Head
    && p[|p| - |Tail|..] == Tail
    && forall k :: |Head| <= k < |p| - |Tail| ==> IsWordChar(p[k])
  }

  /** Length of the run of word characters in `s` starting at `i`. */
  function WordRun(s: string, i: nat): (n: nat)
    requires i <= |s|
    ensures i + n <= |s|
    ensures forall k :: i <= k < i + n ==> IsWordChar(s[k])
    ensures i + n < |s| ==> !IsWordChar(s[i + n])
    decreases |s| - i
  {
    if i < |s| && IsWordChar(s[i]) then 1 + WordRun(s, i + 1) else 0
  }

  /** Length of the regular expression's match at position 0, if it matches.
      `\w+` is greedy and `;` is not a word character, so the only candidate
      is the longest word run after `data:image/`. */
  function MatchLength(s: string): (m: Option<nat>)
    ensures m.Some? ==> Head <= s && |Head| + |Tail| < m.value <= |s|
    ensures m.Some? ==> s[m.value - |Tail|..m.value] == Tail
  {
    if Head <= s then
      var n := WordRun(s, |Head|);
      if n > 0 && Tail <= s[|Head| + n..] then Some(|Head| + n + |Tail|) else None
    else None
  }

  /** What `MatchLength` reports is a match of the prefix language. */
  lemma MatchSound(s: string)
    requires MatchLength(s).Some?
    ensures MatchLength(s).value <= |s|
    ensures IsDataUriPrefix(s[..MatchLength(s).value])
  {
    var n := WordRun(s, |Head|);
    var m := |Head| + n + |Tail|;
    var p := s[..m];
    assert p[..|Head|] == s[..|Head|];
    assert p[|p| - |Tail|..] == s[|Head| + n..][..|Tail|];
    forall k | |Head| <= k < |p| - |Tail|
      ensures IsWordChar(p[k])
    {
      assert p[k] == s[k];
    }
  }

  /** Every match of the prefix language is the one `MatchLength` finds: the
      language is prefix-free, so the match is unique. */
  lemma MatchComplete(s: string, m: nat)
    requires m <= |s| && IsDataUriPrefix(s[..m])
    ensures MatchLength(s) == Some(m)
  {
    var p := s[..m];
    assert s[..|Head|] == p[..|Head|];
    var w := m - |Tail| - |Head|;
    forall k | |Head| <= k < |Head| + w
      ensures IsWordChar(s[k])
    {
      assert s[k] == p[k];
    }
    assert s[|Head| + w] == p[|p| - |Tail|..][0] == ';';
    var n := WordRun(s, |Head|);
    assert n == w;
    assert s[|Head| + n..][..|Tail|] == p[|p| - |Tail|..];
  }

  /** `file.replace(regex, '')`: the result is a suffix of the input, and
      whatever was removed is exactly one data-URI prefix. */
  function Strip(s: string): (r: string)
    ensures |r| <= |s| && r == s[|s| - |r|..]
    ensures r != s ==> IsDataUriPrefix(s[..|s| - |r|])
  {
    match MatchLength(s)
    case Some(m) =>
      MatchSound(s);
      s[m..]
    case None => s
  }

  /** A string that starts with a data-URI prefix loses exactly that prefix. */
  lemma StripRemovesPrefix(s: string, m: nat)
    requires m <= |s| && IsDataUriPrefix(s[..m])
    ensures Strip(s) == s[m..]
  {
    MatchComplete(s, m);
  }

  /** A string with no data-URI prefix at position 0 is returned unchanged. */
  lemma StripKeepsUnprefixed(s: string)
    requires forall m :: 0 <= m <= |s| ==> !IsDataUriPrefix(s[..m])
    ensures Strip(s) == s
  {
  }

  /** The prefix is removed once: a second prefix right behind it stays. */
  lemma StripOnce(p: string, q: string, t: string)
    requires IsDataUriPrefix(p) && IsDataUriPrefix(q)
    ensures Strip(p + q + t) == q + t
  {
    var s := p + q + t;
    assert s[..|p|] == p;
    StripRemovesPrefix(s, |p|);
    assert s[|p|..] == q + t;
  }

  /** `data:image/png;base64,iVBO` is decoded from `iVBO`. */
  lemma StripPngDataUri()
    ensures Strip("data:image/png;base64,iVBO") == "iVBO"
  {
    var s := "data:image/png;base64,iVBO";
    var p := s[..22];
    assert p == "data:image/png;base64,";
    assert p[..|Head|] == Head;
    assert p[|p| - |Tail|..] == Tail;
    StripRemovesPrefix(s, 22);
  }
}
