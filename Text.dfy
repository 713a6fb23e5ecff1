/**
 * The few Python string operations the collector relies on: `str.strip()`,
 * `str.startswith`, the substring test `sub in s`, and `s.split(sep)[0]`.
 */
module Text {

  import opened Wrappers

  /** The characters for which Python's `str.isspace()` holds. */
  predicate IsSpace(c: char)
  {
    || ('\t' <= c <= '\r')               // tab, line feed, vertical tab, form feed, carriage return
    || ('\U{1C}' <= c <= '\U{1F}')       // file, group, record and unit separators
    || c == ' ' || c == '\U{85}' || c == '\U{A0}' || c == '\U{1680}'
    || ('\U{2000}' <= c <= '\U{200A}')
    || c == '\U{2028}' || c == '\U{2029}' || c == '\U{202F}' || c == '\U{205F}' || c == '\U{3000}'
  }

  predicate AllSpace(s: string)
  {
    forall i :: 0 <= i < |s| ==> IsSpace(s[i])
  }

  /** `s.lstrip()`: drops the leading white space, keeps the rest. */
  function TrimStart(s: string): string
  {
    if s == [] || !IsSpace(s[0]) then s else TrimStart(s[1..])
  }

  /** `lstrip()` keeps a suffix that does not start with white space and drops only white space. */
  lemma {:induction false} TrimStartKeepsSuffix(s: string)
    ensures var r := TrimStart(s);
      && |r| <= |s| && r == s[|s| - |r|..]
      && AllSpace(s[..|s| - |r|])
      && (r == [] || !IsSpace(r[0]))
  {
    if s != [] && IsSpace(s[0]) {
      TrimStartKeepsSuffix(s[1..]);
      var r := TrimStart(s);
      assert s[..|s| - |r|] == [s[0]] + s[1..][..|s| - 1 - |r|];
    }
  }

  /** `s.rstrip()`: drops the trailing white space, keeps the rest. */
  function TrimEnd(s: string): string
  {
    if s == [] || !IsSpace(s[|s| - 1]) then s else TrimEnd(s[..|s| - 1])
  }

  /** `rstrip()` keeps a prefix that does not end with white space and drops only white space. */
  lemma {:induction false} TrimEndKeepsPrefix(s: string)
    ensures var r := TrimEnd(s);
      && |r| <= |s| && r == s[..|r|]
      && AllSpace(s[|r|..])
      && (r == [] || !IsSpace(r[|r| - 1]))
  {
    if s != [] && IsSpace(s[|s| - 1]) {
      var n := |s| - 1;
      TrimEndKeepsPrefix(s[..n]);
      var r := TrimEnd(s);
      assert s[|r|..] == s[..n][|r|..] + [s[n]];
    }
  }

  /** `s.strip()`. */
  function Strip(s: string): (r: string)
  {
    TrimEnd(TrimStart(s))
  }

  /**
   * What `strip()` keeps is a stretch of `s` whose two ends are not white space,
   * and everything it drops on either side is white space.
   */
  lemma StripIsInnerSlice(s: string)
    ensures var r := Strip(s);
      exists i :: 0 <= i <= |s| - |r| && r == s[i..i + |r|] && AllSpace(s[..i]) && AllSpace(s[i + |r|..])
    ensures Strip(s) == [] || (!IsSpace(Strip(s)[0]) && !IsSpace(Strip(s)[|Strip(s)| - 1]))
  {
    var t := TrimStart(s);
    var r := TrimEnd(t);
    TrimStartKeepsSuffix(s);
    TrimEndKeepsPrefix(t);
    var i := |s| - |t|;
    assert r == s[i..i + |r|];
    assert s[i + |r|..] == t[|r|..];
  }

  /** A string that neither starts nor ends with white space is left alone by `strip()`. */
  lemma StripUnchanged(s: string)
    requires s == [] || (!IsSpace(s[0]) && !IsSpace(s[|s| - 1]))
    ensures Strip(s) == s
  {
  }

  /** `strip()` is idempotent: the collector strips date text twice (test_copy.py:22, :100). */
  lemma StripIdempotent(s: string)
    ensures Strip(Strip(s)) == Strip(s)
  {
    StripIsInnerSlice(s);
    StripUnchanged(Strip(s));
  }

  /** `s.startswith(p)`. */
  predicate StartsWith(s: string, p: string)
  {
    |p| <= |s| && s[..|p|] == p
  }

  /** `sub` occurs in `s` starting at index `k`. */
  predicate OccursAt(s: string, sub: string, k: int)
  {
    0 <= k && k + |sub| <= |s| && s[k..k + |sub|] == sub
  }

  /** `s.find(sub, from)`, as an option: the index at or after `from` where `sub` first occurs. */
  function FindFrom(s: string, sub: string, from: nat): (r: Option<nat>)
    requires from <= |s|
    decreases |s| - from
    ensures r.Some? ==> from <= r.value <= |s| - |sub|
  {
    if from + |sub| > |s| then None
    else if s[from..from + |sub|] == sub then Some(from)
    else FindFrom(s, sub, from + 1)
  }

  /** The index `FindFrom` gives is the first occurrence at or after `from`, and `None` means there is none. */
  lemma {:induction false} FindFromFirst(s: string, sub: string, from: nat)
    requires from <= |s|
    decreases |s| - from
    ensures FindFrom(s, sub, from).Some? ==> from <= FindFrom(s, sub, from).value && OccursAt(s, sub, FindFrom(s, sub, from).value)
    ensures FindFrom(s, sub, from).Some? ==> forall k :: from <= k < FindFrom(s, sub, from).value ==> !OccursAt(s, sub, k)
    ensures FindFrom(s, sub, from).None? ==> forall k :: from <= k ==> !OccursAt(s, sub, k)
  {
    if from + |sub| <= |s| && s[from..from + |sub|] != sub {
      FindFromFirst(s, sub, from + 1);
    }
  }

  /** `sub in s`. */
  predicate Contains(s: string, sub: string)
  {
    FindFrom(s, sub, 0).Some?
  }

  lemma ContainsIff(s: string, sub: string)
    ensures Contains(s, sub) <==> exists k :: OccursAt(s, sub, k)
  {
    FindFromFirst(s, sub, 0);
  }

  /** `s.split(sep)[0]`: the part of `s` before the first `sep`, or all of `s` when `sep` does not occur. */
  function SplitHead(s: string, sep: string): string
    requires sep != []   // Python raises ValueError on an empty separator
  {
    match FindFrom(s, sep, 0)
    case Some(i) => s[..i]
    case None => s
  }

  /**
   * The head is a prefix of `s` in which `sep` does not start; `sep` follows
   * it when `sep` occurs at all, and otherwise the head is all of `s`.
   */
  lemma SplitHeadParts(s: string, sep: string)
    requires sep != []
    ensures var r := SplitHead(s, sep);
      && StartsWith(s, r)
      && (forall k :: 0 <= k < |r| ==> !OccursAt(s, sep, k))
      && (Contains(s, sep) ==> OccursAt(s, sep, |r|))
      && (!Contains(s, sep) ==> r == s)
  {
    FindFromFirst(s, sep, 0);
  }

}
