/**
 * The demo app's `String.trunc(length:trailing:)` extension: a text longer
 * than `length` characters is cut to its first `length` characters and
 * `trailing` is appended; a shorter text is returned unchanged.
 */
module Demo {

  /**
   * `s.trunc(length: length, trailing: trailing)`. Swift's `prefix` traps
   * on a negative length, so `length` is a natural number here.
   */
  function Trunc(s: string, length: nat, trailing: string): (r: string)
    ensures |s| <= length ==> r == s
    ensures |s| > length ==> |r| == length + |trailing| && r[length..] == trailing
    ensures |s| > length ==> forall k :: 0 <= k < length ==> r[k] == s[k]
  {
    if |s| > length then s[..length] + trailing else s
  }

  /** With the default empty trailing text the result is the longest prefix of at most `length` characters. */
  lemma TruncDefaultIsPrefix(s: string, length: nat)
    ensures |Trunc(s, length, "")| == if |s| <= length then |s| else length
    ensures Trunc(s, length, "") <= s
  {
  }

  /** Truncating twice with the same arguments changes nothing more, whatever the trailing text. */
  lemma TruncIsIdempotent(s: string, length: nat, trailing: string)
    ensures Trunc(Trunc(s, length, trailing), length, trailing) == Trunc(s, length, trailing)
  {
    var r := Trunc(s, length, trailing);
    if |s| > length {
      assert r[..length] == s[..length];
    }
  }
}
