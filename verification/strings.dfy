/** UTILS_strnlen: the length of a C string, scanning at most a given number
    of characters. A C string is the sequence of characters readable from the
    pointer; the scan may only index characters inside it.
 */
module Strings {
  import opened Pointers

  /** Index of the first NUL character of `s`, or |s| when it has none. */
  function FirstNul(s: seq<char>): (i: nat)
    ensures i <= |s|
    ensures forall k :: 0 <= k < i ==> s[k] != '\0'
    ensures i < |s| ==> s[i] == '\0'
  {
    if |s| == 0 || s[0] == '\0' then 0 else 1 + FirstNul(s[1..])
  }

  function Min(a: nat, b: nat): nat {
    if a <= b then a else b
  }

  /** What the loop as written needs in order to stay inside `s`: it reads
      the character at the current length before comparing that length with
      the bound, so it reaches index `maxLength` unless a NUL stops it first. */
  predicate ScanReadable(s: seq<char>, maxLength: nat) {
    |s| > maxLength || '\0' in s
  }

  /** What a scan that never looks past `maxLength` characters needs. */
  predicate BoundedScanReadable(s: seq<char>, maxLength: nat) {
    |s| >= maxLength || '\0' in s
  }

  /** UTILS_strnlen as written: 0 for NULL, otherwise the number of
      characters before the first NUL, capped at `maxLength`. */
  method Strnlen(s: Option<seq<char>>, maxLength: nat) returns (n: nat)
    requires s.Some? ==> ScanReadable(s.value, maxLength)
    ensures s.None? ==> n == 0
    ensures n <= maxLength
    ensures s.Some? ==> n == Min(maxLength, FirstNul(s.value))
    ensures s.Some? ==> forall k :: 0 <= k < n ==> s.value[k] != '\0'
  {
    n := 0;
    if s.Some? {
      var str := s.value;
      while str[n] != '\0' && n < maxLength
        invariant n <= maxLength
        invariant n <= FirstNul(str)
        invariant n < |str|
        decreases maxLength - n
      {
        n := n + 1;
      }
    }
  }

  /** The scan with its two tests swapped: the bound is checked before the
      character is read. Same result, and it needs only `maxLength`
      readable characters. */
  method StrnlenBounded(s: Option<seq<char>>, maxLength: nat) returns (n: nat)
    requires s.Some? ==> BoundedScanReadable(s.value, maxLength)
    ensures s.None? ==> n == 0
    ensures n <= maxLength
    ensures s.Some? ==> n == Min(maxLength, FirstNul(s.value))
    ensures s.Some? ==> forall k :: 0 <= k < n ==> s.value[k] != '\0'
  {
    n := 0;
    if s.Some? {
      var str := s.value;
      while n < maxLength && str[n] != '\0'
        invariant n <= maxLength
        invariant n <= FirstNul(str)
        invariant n < maxLength ==> n < |str|
        decreases maxLength - n
      {
        n := n + 1;
      }
    }
  }

  /** Every call the as-written scan accepts, the bounded scan accepts too. */
  lemma BoundedScanAcceptsMore(s: seq<char>, maxLength: nat)
    requires ScanReadable(s, maxLength)
    ensures BoundedScanReadable(s, maxLength)
  {
  }

  /** An unterminated three-character buffer with bound 3: the bounded scan
      stays inside it, the as-written scan reads the character at index 3. */
  lemma StrnlenOverreadsWitness()
    ensures BoundedScanReadable("abc", 3)
    ensures !ScanReadable("abc", 3)
  {
    assert "abc"[0] != '\0' && "abc"[1] != '\0' && "abc"[2] != '\0';
  }
}
