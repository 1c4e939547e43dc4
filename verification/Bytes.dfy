/** Octets, and writing them into a buffer. */
module Bytes {
  type byte = n: nat | n < 256

  /** `b` with `s` written at `at`. */
  function Spliced(b: seq<byte>, at: nat, s: seq<byte>): (r: seq<byte>)
    requires at + |s| <= |b|
    ensures |r| == |b|
  {
    b[..at] + s + b[at + |s|..]
  }

  /** What stands at the spliced place, as far as `j` bytes, and what stands apart from it. */
  lemma SplicedWithin(b: seq<byte>, at: nat, s: seq<byte>, j: nat)
    requires at + |s| <= |b| && j <= |s|
    ensures Spliced(b, at, s)[at..at + j] == s[..j]
  {
  }

  lemma SplicedApart(b: seq<byte>, at: nat, s: seq<byte>, i: nat, j: nat)
    requires at + |s| <= |b| && i <= j <= |b| && (j <= at || at + |s| <= i)
    ensures Spliced(b, at, s)[i..j] == b[i..j]
  {
  }

  lemma SplicedTwice(b: seq<byte>, at: nat, s: seq<byte>, s': seq<byte>)
    requires at + |s| + |s'| <= |b|
    ensures Spliced(Spliced(b, at, s), at + |s|, s') == Spliced(b, at, s + s')
  {
  }

  method Memcpy(buf: array<byte>, at: nat, src: seq<byte>)
    requires at + |src| <= buf.Length
    modifies buf
    ensures buf[..] == Spliced(old(buf[..]), at, src)
  {
    forall k | at <= k < at + |src| { buf[k] := src[k - at]; }
  }
}
