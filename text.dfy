/**
 * The two string operations of Python that the chatbot relies on:
 * `str.strip()` with no argument and `" ".join(parts)`.
 */
module Text {

  /** The characters for which Python's `str.isspace()` holds; `str.strip()`
      with no argument removes exactly these from both ends of a string. */
  predicate IsSpace(c: char) {
    || ('\U{9}' <= c <= '\U{D}')
    || ('\U{1C}' <= c <= '\U{20}')
    || c == '\U{85}' || c == '\U{A0}' || c == '\U{1680}'
    || ('\U{2000}' <= c <= '\U{200A}')
    || c == '\U{2028}' || c == '\U{2029}' || c == '\U{202F}'
    || c == '\U{205F}' || c == '\U{3000}'
  }

  /** Every character of `s` is white space (the empty string included). */
  predicate AllSpace(s: string) {
    forall i :: 0 <= i < |s| ==> IsSpace(s[i])
  }

  /** `s` neither starts nor ends with white space. */
  predicate Trimmed(s: string) {
    s == [] || (!IsSpace(s[0]) && !IsSpace(s[|s| - 1]))
  }

  /** The number of white-space characters `s` starts with. */
  function LeadingSpaces(s: string): (n: nat)
    ensures n <= |s|
    ensures forall i :: 0 <= i < n ==> IsSpace(s[i])
    ensures n < |s| ==> !IsSpace(s[n])
  {
    if s != [] && IsSpace(s[0]) then 1 + LeadingSpaces(s[1..]) else 0
  }

  /** The number of white-space characters `s` ends with. */
  function TrailingSpaces(s: string): (n: nat)
    ensures n <= |s|
    ensures forall i :: |s| - n <= i < |s| ==> IsSpace(s[i])
    ensures n < |s| ==> !IsSpace(s[|s| - 1 - n])
  {
    if s != [] && IsSpace(s[|s| - 1]) then 1 + TrailingSpaces(s[..|s| - 1]) else 0
  }

  /** `s.strip()`: white space removed from both ends. The result is trimmed,
      it is empty exactly when `s` is blank, and a trimmed string is its own
      strip; `StripIsMiddle` says which part of `s` it is. */
  function Strip(s: string): (r: string)
    ensures |r| <= |s| && Trimmed(r)
    ensures r == [] <==> AllSpace(s)
    ensures Trimmed(s) ==> r == s
  {
    var lo := LeadingSpaces(s);
    if lo == |s| then "" else s[lo..|s| - TrailingSpaces(s)]
  }

  /** The strip is the middle of `s` between a blank prefix and a blank
      suffix; being trimmed itself, it has exactly the outer white space
      removed and nothing else. */
  lemma StripIsMiddle(s: string)
    ensures exists lo, hi :: 0 <= lo <= hi <= |s| && Strip(s) == s[lo..hi] && AllSpace(s[..lo]) && AllSpace(s[hi..])
  {
    var lo := LeadingSpaces(s);
    var hi := if lo == |s| then |s| else |s| - TrailingSpaces(s);
    assert AllSpace(s[..lo]) by {
      forall i | 0 <= i < lo ensures IsSpace(s[..lo][i]) {
        assert s[..lo][i] == s[i];
      }
    }
    assert AllSpace(s[hi..]) by {
      forall i | 0 <= i < |s| - hi ensures IsSpace(s[hi..][i]) {
        assert s[hi..][i] == s[hi + i];
      }
    }
    assert Strip(s) == s[lo..hi];
  }

  /** Python's `sep.join(parts)`: the parts in order, with `sep` between each
      two neighbours. A single part joins to itself; the result starts with the first part and ends with the
      last. */
  function Join(parts: seq<string>, sep: string): (r: string)
    ensures parts == [] ==> r == ""
    ensures |parts| == 1 ==> r == parts[0]
    ensures parts != [] ==> |parts[0]| <= |r| && r[..|parts[0]|] == parts[0]
    ensures parts != [] ==> |parts[|parts| - 1]| <= |r| && r[|r| - |parts[|parts| - 1]|..] == parts[|parts| - 1]
  {
    if parts == [] then ""
    else if |parts| == 1 then parts[0]
    else parts[0] + sep + Join(parts[1..], sep)
  }

  /** Joining two non-empty lists puts one separator between their joins, so
      every part appears in order with exactly one separator between
      neighbours. */
  lemma {:induction false} JoinAppend(xs: seq<string>, ys: seq<string>, sep: string)
    requires xs != [] && ys != []
    ensures Join(xs + ys, sep) == Join(xs, sep) + sep + Join(ys, sep)
    decreases |xs|
  {
    if |xs| == 1 {
      assert (xs + ys)[1..] == ys;
    } else {
      assert (xs + ys)[1..] == xs[1..] + ys;
      JoinAppend(xs[1..], ys, sep);
      Associative3(xs[0], sep, Join(xs[1..], sep), Join(ys, sep));
    }
  }

  /** Regrouping a concatenation; a proof hint for `JoinAppend`. */
  lemma Associative3(a: string, b: string, c: string, d: string)
    ensures a + b + (c + b + d) == a + b + c + b + d
  {
  }
}
