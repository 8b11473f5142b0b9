/** Bytes, fixed-width unsigned integers, network byte order and Python slicing. */
module Bytes {

  type byte = x: int | 0 <= x < 0x100
  type u16 = x: int | 0 <= x < 0x1_0000
  type u32 = x: int | 0 <= x < 0x1_0000_0000

  /** struct.pack("!H", x): two bytes, most significant first. */
  function BE16(x: u16): (r: seq<byte>)
    ensures |r| == 2
  {
    [x / 0x100, x % 0x100]
  }

  /** struct.unpack("!H", b)[0]. */
  function FromBE16(b: seq<byte>): (x: u16)
    requires |b| == 2
  {
    b[0] as int * 0x100 + b[1] as int
  }

  /** struct.pack("!L", x): four bytes, most significant first. */
  function BE32(x: u32): (r: seq<byte>)
    ensures |r| == 4
  {
    BE16(x / 0x1_0000) + BE16(x % 0x1_0000)
  }

  /** struct.unpack("!L", b)[0]. */
  function FromBE32(b: seq<byte>): (x: u32)
    requires |b| == 4
  {
    FromBE16(b[..2]) as int * 0x1_0000 + FromBE16(b[2..]) as int
  }

  lemma BE16RoundTrip(x: u16)
    ensures FromBE16(BE16(x)) == x
  {
  }

  lemma FromBE16RoundTrip(b: seq<byte>)
    requires |b| == 2
    ensures BE16(FromBE16(b)) == b
  {
  }

  lemma FromBE32RoundTrip(b: seq<byte>)
    requires |b| == 4
    ensures BE32(FromBE32(b)) == b
  {
    FromBE16RoundTrip(b[..2]);
    FromBE16RoundTrip(b[2..]);
    assert b == b[..2] + b[2..];
  }

  lemma BE32RoundTrip(x: u32)
    ensures FromBE32(BE32(x)) == x
  {
    var r := BE32(x);
    assert r[..2] == BE16(x / 0x1_0000) && r[2..] == BE16(x % 0x1_0000);
    BE16RoundTrip(x / 0x1_0000);
    BE16RoundTrip(x % 0x1_0000);
  }

  /** Python's normalisation of a slice bound against a sequence of length n. */
  function PyIndex(k: int, n: nat): (r: nat)
    ensures r <= n
    ensures 0 <= k <= n ==> r == k
    ensures k > n ==> r == n
  {
    if k < 0 then (if k + n < 0 then 0 else k + n)
    else if k > n then n
    else k
  }

  /** Python's s[a:b]: out-of-range bounds are clamped, an empty or reversed range gives []. */
  function PySlice<T>(s: seq<T>, a: int, b: int): (r: seq<T>)
    ensures |r| <= |s|
    ensures 0 <= a <= b <= |s| ==> r == s[a..b]
    ensures 0 <= a <= |s| <= b ==> r == s[a..]
    ensures 0 <= b <= a ==> r == []
  {
    var lo := PyIndex(a, |s|);
    var hi := PyIndex(b, |s|);
    if lo <= hi then s[lo..hi] else []
  }
}
