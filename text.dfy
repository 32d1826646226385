/**
 * Character-level helpers that the chunker relies on: Foundation's
 * whitespace class, `trimmingCharacters(in: .whitespacesAndNewlines)`,
 * single-character search forwards and backwards within a prefix, and
 * concatenation of a list of pieces.
 */
module Text {
  import opened Wrappers

  /**
   * Membership in Foundation's `CharacterSet.whitespacesAndNewlines`:
   * the Unicode space, line and paragraph separators, the tab and the
   * line-break controls U+000A..U+000D and U+0085.
   */
  predicate IsWhitespace(c: char): (r: bool)
    ensures c == ' ' || c == '\t' || c == '\n' || c == '\r' ==> r
    ensures r ==> c != ':' && c != ','
  {
    ('\t' <= c <= '\r') || c == ' ' || c == '\U{0085}' || c == '\U{00A0}'
    || c == '\U{1680}' || ('\U{2000}' <= c <= '\U{200A}') || c == '\U{2028}'
    || c == '\U{2029}' || c == '\U{202F}' || c == '\U{205F}' || c == '\U{3000}'
  }

  /** The characters of `s` that are not whitespace, in order. */
  function Visible(s: string): (r: string)
    ensures |r| <= |s|
    ensures forall k :: 0 <= k < |r| ==> !IsWhitespace(r[k])
    decreases |s|
  {
    if |s| == 0 then ""
    else (if IsWhitespace(s[0]) then "" else [s[0]]) + Visible(s[1..])
  }

  lemma {:induction false} VisibleConcat(a: string, b: string)
    ensures Visible(a + b) == Visible(a) + Visible(b)
    decreases |a|
  {
    if |a| == 0 {
      assert a + b == b;
    } else {
      assert (a + b)[1..] == a[1..] + b;
      VisibleConcat(a[1..], b);
    }
  }

  lemma {:induction false} VisibleOfWhitespace(s: string)
    requires forall k :: 0 <= k < |s| ==> IsWhitespace(s[k])
    ensures Visible(s) == ""
    decreases |s|
  {
    if |s| > 0 {
      VisibleOfWhitespace(s[1..]);
    }
  }

  /** The position of the first non-whitespace character of `s` at or after `i`, or |s|. */
  function SkipLeading(s: string, i: nat): (r: nat)
    requires i <= |s|
    ensures i <= r <= |s|
    ensures forall k :: i <= k < r ==> IsWhitespace(s[k])
    ensures r == |s| || !IsWhitespace(s[r])
    decreases |s| - i
  {
    if i < |s| && IsWhitespace(s[i]) then SkipLeading(s, i + 1) else i
  }

  /** The end of `s[lo..j]` once its trailing whitespace is dropped. */
  function SkipTrailing(s: string, lo: nat, j: nat): (r: nat)
    requires lo <= j <= |s|
    ensures lo <= r <= j
    ensures forall k :: r <= k < j ==> IsWhitespace(s[k])
    ensures r == lo || !IsWhitespace(s[r - 1])
    decreases j - lo
  {
    if lo < j && IsWhitespace(s[j - 1]) then SkipTrailing(s, lo, j - 1) else j
  }

  /** `s.trimmingCharacters(in: .whitespacesAndNewlines)`. */
  function Trim(s: string): (r: string)
    ensures |r| <= |s|
    ensures r == [] || (!IsWhitespace(r[0]) && !IsWhitespace(r[|r| - 1]))
  {
    var lo := SkipLeading(s, 0);
    s[lo..SkipTrailing(s, lo, |s|)]
  }

  lemma VisibleOfFramed(head: string, body: string, tail: string)
    requires forall k :: 0 <= k < |head| ==> IsWhitespace(head[k])
    requires forall k :: 0 <= k < |tail| ==> IsWhitespace(tail[k])
    ensures Visible(head + (body + tail)) == Visible(body)
  {
    calc {
      Visible(head + (body + tail));
      { VisibleConcat(head, body + tail); }
      Visible(head) + Visible(body + tail);
      { VisibleOfWhitespace(head); }
      Visible(body + tail);
      { VisibleConcat(body, tail); }
      Visible(body) + Visible(tail);
      { VisibleOfWhitespace(tail); }
      Visible(body);
    }
  }

  /** Dropping whitespace from both ends of a text keeps its visible characters. */
  lemma VisibleOfRange(s: string, lo: nat, hi: nat)
    requires lo <= hi <= |s|
    requires forall k :: 0 <= k < lo ==> IsWhitespace(s[k])
    requires forall k :: hi <= k < |s| ==> IsWhitespace(s[k])
    ensures Visible(s[lo..hi]) == Visible(s)
  {
    var head, body, tail := s[..lo], s[lo..hi], s[hi..];
    forall k | 0 <= k < |head|
      ensures IsWhitespace(head[k])
    {
      assert head[k] == s[k];
    }
    forall k | 0 <= k < |tail|
      ensures IsWhitespace(tail[k])
    {
      assert tail[k] == s[hi + k];
    }
    ThreeParts(s, lo, hi);
    VisibleOfFramed(head, body, tail);
  }

  lemma TwoParts(s: string, n: nat)
    requires n <= |s|
    ensures s == s[..n] + s[n..]
  {
  }

  lemma ThreeParts(s: string, lo: nat, hi: nat)
    requires lo <= hi <= |s|
    ensures s == s[..lo] + (s[lo..hi] + s[hi..])
  {
  }

  /** Trimming removes whitespace only: no other character is lost. */
  lemma TrimKeepsVisible(s: string)
    ensures Visible(Trim(s)) == Visible(s)
  {
    var lo := SkipLeading(s, 0);
    VisibleOfRange(s, lo, SkipTrailing(s, lo, |s|));
  }

  /**
   * Trimming removes whitespace at the two ends only: the result is the
   * infix of `s` between a whitespace-only head and a whitespace-only
   * tail, so the spaces between words survive.
   */
  lemma TrimIsInfix(s: string)
    ensures exists lo, hi ::
              && 0 <= lo <= hi <= |s| && Trim(s) == s[lo..hi]
              && (forall k :: 0 <= k < lo ==> IsWhitespace(s[k]))
              && (forall k :: hi <= k < |s| ==> IsWhitespace(s[k]))
  {
    var lo := SkipLeading(s, 0);
    var hi := SkipTrailing(s, lo, |s|);
    assert Trim(s) == s[lo..hi];
  }

  /** A text that ends in whitespace loses at least that character. */
  lemma TrimDropsTrailingWhitespace(s: string)
    requires |s| > 0 && IsWhitespace(s[|s| - 1])
    ensures |Trim(s)| < |s|
  {
  }

  /** A text ending in a non-whitespace character keeps it as its last character. */
  lemma TrimKeepsLastCharacter(s: string)
    requires |s| > 0 && !IsWhitespace(s[|s| - 1])
    ensures |Trim(s)| > 0 && Trim(s)[|Trim(s)| - 1] == s[|s| - 1]
  {
  }

  /** A text made only of whitespace trims to the empty text. */
  lemma TrimOfWhitespace(s: string)
    requires forall k :: 0 <= k < |s| ==> IsWhitespace(s[k])
    ensures Trim(s) == ""
  {
  }

  /**
   * `s.prefix(n).range(of: String(c), options: .backwards)`: the
   * position of the last `c` among the first `n` characters of `s`.
   */
  function LastIndexBefore(s: string, c: char, n: nat): (r: Option<nat>)
    requires n <= |s|
    ensures r.Some? ==> r.value < n && s[r.value] == c
    decreases n
  {
    if n == 0 then None
    else if s[n - 1] == c then Some(n - 1)
    else LastIndexBefore(s, c, n - 1)
  }

  /** The backward search finds nothing exactly when there is no `c`, and otherwise no `c` follows what it finds. */
  lemma {:induction false} LastIndexBeforeIsLast(s: string, c: char, n: nat)
    requires n <= |s|
    ensures LastIndexBefore(s, c, n).None? <==> forall k :: 0 <= k < n ==> s[k] != c
    ensures LastIndexBefore(s, c, n).Some? ==>
      forall k :: LastIndexBefore(s, c, n).value < k < n ==> s[k] != c
    decreases n
  {
    if n > 0 && s[n - 1] != c {
      LastIndexBeforeIsLast(s, c, n - 1);
    }
  }

  /**
   * The position of the first `c` among the characters of `s` at
   * positions `lo` up to `hi`; `FirstIndexIn(s, c, 0, n)` is
   * `s.prefix(n).range(of: String(c))`.
   */
  function FirstIndexIn(s: string, c: char, lo: nat, hi: nat): (r: Option<nat>)
    requires lo <= hi <= |s|
    ensures r.Some? ==> lo <= r.value < hi && s[r.value] == c
    decreases hi - lo
  {
    if lo == hi then None
    else if s[lo] == c then Some(lo)
    else FirstIndexIn(s, c, lo + 1, hi)
  }

  /** The forward search finds nothing exactly when there is no `c`, and otherwise no `c` precedes what it finds. */
  lemma {:induction false} FirstIndexInIsFirst(s: string, c: char, lo: nat, hi: nat)
    requires lo <= hi <= |s|
    ensures FirstIndexIn(s, c, lo, hi).None? <==> forall k :: lo <= k < hi ==> s[k] != c
    ensures FirstIndexIn(s, c, lo, hi).Some? ==>
      forall k :: lo <= k < FirstIndexIn(s, c, lo, hi).value ==> s[k] != c
    decreases hi - lo
  {
    if lo < hi && s[lo] != c {
      FirstIndexInIsFirst(s, c, lo + 1, hi);
    }
  }

  /** The concatenation of `parts`, in order. */
  function Flatten<T>(parts: seq<seq<T>>): (r: seq<T>)
    decreases |parts|
  {
    if |parts| == 0 then [] else Flatten(parts[..|parts| - 1]) + parts[|parts| - 1]
  }

  lemma FlattenSingle<T>(x: seq<T>)
    ensures Flatten([x]) == x
  {
    assert [x][..0] == [];
  }

  lemma {:induction false} FlattenConcat<T>(a: seq<seq<T>>, b: seq<seq<T>>)
    ensures Flatten(a + b) == Flatten(a) + Flatten(b)
    decreases |b|
  {
    if |b| == 0 {
      assert a + b == a;
    } else {
      var n := |b| - 1;
      var ab := a + b;
      assert ab[..|ab| - 1] == a + b[..n];
      calc {
        Flatten(ab);
        Flatten(a + b[..n]) + b[n];
        { FlattenConcat(a, b[..n]); }
        (Flatten(a) + Flatten(b[..n])) + b[n];
        Flatten(a) + (Flatten(b[..n]) + b[n]);
      }
    }
  }
}
