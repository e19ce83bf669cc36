/** Borrowed text spans (suffix_tree_string) and the longest-common-prefix
    computation that decides every insertion step (find_split_point). */
module Spans {

  /** A view `text[str .. str + len)` into the caller's text; `str` is an
      offset, never a copy. */
  datatype Span = Span(str: int, len: int)

  /** The span lies inside the text buffer. */
  predicate InText(text: seq<char>, s: Span) {
    0 <= s.str && 0 <= s.len && s.str + s.len <= |text|
  }

  /** The bytes a span refers to. */
  function Bytes(text: seq<char>, s: Span): (b: seq<char>)
    requires InText(text, s)
    ensures |b| == s.len
  {
    text[s.str .. s.str + s.len]
  }

  /** Length of the longest common prefix of `a` and `b`. */
  function Lcp(a: seq<char>, b: seq<char>): (k: nat)
    ensures k <= |a| && k <= |b|
    ensures a[..k] == b[..k]
    ensures k < |a| && k < |b| ==> a[k] != b[k]
  {
    LcpFrom(a, b, 0)
  }

  /** Lcp once the first `i` bytes are known to agree. */
  function LcpFrom(a: seq<char>, b: seq<char>, i: nat): (k: nat)
    requires i <= |a| && i <= |b| && a[..i] == b[..i]
    ensures i <= k <= |a| && k <= |b|
    ensures a[..k] == b[..k]
    ensures k < |a| && k < |b| ==> a[k] != b[k]
    decreases |a| - i
  {
    if i < |a| && i < |b| && a[i] == b[i] then
      assert a[..i + 1] == a[..i] + [a[i]] && b[..i + 1] == b[..i] + [b[i]];
      LcpFrom(a, b, i + 1)
    else i
  }

  /** The three properties of `Lcp` determine it. */
  lemma LcpUnique(a: seq<char>, b: seq<char>, k: nat)
    requires k <= |a| && k <= |b|
    requires a[..k] == b[..k]
    requires k < |a| && k < |b| ==> a[k] != b[k]
    ensures k == Lcp(a, b)
  {
  }

  /** find_split_point: walks both spans while their bytes agree, up to the
      shorter length. Both lengths must be non-zero (the source asserts it). */
  method FindSplitPoint(text: seq<char>, haystack: Span, needle: Span) returns (k: int)
    requires InText(text, haystack) && InText(text, needle)
    requires haystack.len != 0 && needle.len != 0
    ensures 0 <= k <= haystack.len && k <= needle.len
    ensures Bytes(text, haystack)[..k] == Bytes(text, needle)[..k]
    ensures k < haystack.len && k < needle.len ==> text[haystack.str + k] != text[needle.str + k]
    ensures k == Lcp(Bytes(text, haystack), Bytes(text, needle))
  {
    ghost var a, b := Bytes(text, haystack), Bytes(text, needle);
    k := 0;
    var len := if haystack.len < needle.len then haystack.len else needle.len;
    while k < len && text[haystack.str + k] == text[needle.str + k]
      invariant 0 <= k <= len
      invariant a[..k] == b[..k]
    {
      assert a[k] == text[haystack.str + k] && b[k] == text[needle.str + k];
      assert a[..k + 1] == a[..k] + [a[k]] && b[..k + 1] == b[..k] + [b[k]];
      k := k + 1;
    }
    assert k < len ==> a[k] != b[k];
    LcpUnique(a, b, k);
  }

  /** The split points the source's own unit tests pin down. */
  lemma SplitPointExamples()
    ensures Lcp("papua", "pua") == 1
    ensures Lcp("xyzzy", "foo") == 0
    ensures Lcp("xyzzy", "yyy") == 0
    ensures Lcp("xyzzy", "xxx") == 1
    ensures Lcp("papua", "papa") == 3
  {
    LcpUnique("papua", "pua", 1);
    LcpUnique("xyzzy", "xxx", 1);
    LcpUnique("papua", "papa", 3);
  }
}
