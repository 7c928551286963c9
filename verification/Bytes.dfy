/** Little-endian integers in byte buffers, and copying into a buffer in place. */
module Bytes {
  import opened Meta

  function Pow256(n: nat): (p: nat)
    ensures p > 0
  {
    if n == 0 then 1 else 256 * Pow256(n - 1)
  }

  function Encode(v: nat, n: nat): (s: seq<byte>)
    ensures |s| == n
  {
    if n == 0 then [] else [(v % 256) as byte] + Encode(v / 256, n - 1)
  }

  function Decode(s: seq<byte>): nat {
    if s == [] then 0 else s[0] as nat + 256 * Decode(s[1..])
  }

  lemma {:induction false} DecodeEncode(v: nat, n: nat)
    requires v < Pow256(n)
    ensures Decode(Encode(v, n)) == v
  {
    if n > 0 {
      DecodeEncode(v / 256, n - 1);
      assert Encode(v, n)[1..] == Encode(v / 256, n - 1);
    }
  }

  /** The `n` bytes from `at` are `v`, least significant first. */
  predicate Little(buf: seq<byte>, at: nat, n: nat, v: nat) {
    at + n <= |buf| && forall i :: 0 <= i < n ==> buf[at + i] as nat == v / Pow256(i) % 256
  }

  lemma {:induction false} EncodeByte(v: nat, n: nat, i: nat)
    requires i < n
    ensures Encode(v, n)[i] as nat == v / Pow256(i) % 256
  {
    if i == 0 {
      assert Pow256(0) == 1;
    } else {
      EncodeByte(v / 256, n - 1, i - 1);
      DivDiv(v, 256, Pow256(i - 1));
    }
  }

  lemma {:induction false} EncodeDecode(s: seq<byte>)
    ensures Encode(Decode(s), |s|) == s
    ensures Decode(s) < Pow256(|s|)
  {
    if s != [] {
      EncodeDecode(s[1..]);
      LowByte(s[0] as nat, Decode(s[1..]));
      assert s == [s[0]] + s[1..];
    }
  }

  lemma LowByte(low: nat, high: nat)
    requires low < 256
    ensures (low + 256 * high) % 256 == low && (low + 256 * high) / 256 == high
  {
  }

  /** What is decoded from some bytes is the number they are, least significant first. */
  lemma LittleEndian(buf: seq<byte>, at: nat, n: nat, v: nat)
    requires at + n <= |buf| && v < Pow256(n)
    ensures Decode(buf[at..at + n]) == v <==> Little(buf, at, n, v)
  {
    hide Encode, Decode, Pow256;
    var s := buf[at..at + n];
    forall i | 0 <= i < n
      ensures Encode(v, n)[i] as nat == v / Pow256(i) % 256 && s[i] == buf[at + i]
    {
      EncodeByte(v, n, i);
    }
    EncodeDecode(s);
    DecodeEncode(v, n);
    if Little(buf, at, n, v) {
      assert s == Encode(v, n);
    }
  }

  lemma Powers()
    ensures Pow256(2) == 0x1_0000 && Pow256(8) == 0x1_0000_0000_0000_0000
  {
    assert Pow256(4) == 0x1_0000_0000;
  }

  lemma RoundTrip16(v: nat)
    requires v < 0x1_0000
    ensures Decode(Encode(v, 2)) == v
  {
    assert Pow256(2) == 0x1_0000;
    DecodeEncode(v, 2);
  }

  lemma RoundTrip64(v: nat)
    requires v <= TARBLK_NONE
    ensures Decode(Encode(v, 8)) == v
  {
    assert Pow256(4) == 0x1_0000_0000;
    assert Pow256(8) == 0x1_0000_0000_0000_0000;
    DecodeEncode(v, 8);
  }

  /** `buf` with the bytes from `at` overwritten by `s`. */
  function Patch(buf: seq<byte>, at: nat, s: seq<byte>): (r: seq<byte>)
    requires at + |s| <= |buf|
    ensures |r| == |buf|
    ensures r[at..at + |s|] == s
    ensures forall i :: 0 <= i < |buf| && !(at <= i < at + |s|) ==> r[i] == buf[i]
  {
    buf[..at] + s + buf[at + |s|..]
  }

  /** memcpy: `s` overwrites the bytes from `at`. */
  method Store(buf: array<byte>, at: nat, s: seq<byte>)
    requires at + |s| <= buf.Length
    modifies buf
    ensures buf[..] == Patch(old(buf[..]), at, s)
  {
    for i := 0 to |s|
      invariant forall k :: 0 <= k < buf.Length ==> buf[k] == if at <= k < at + i then s[k - at] else old(buf[k])
    {
      buf[at + i] := s[i];
    }
    ghost var was := old(buf[..]);
    assert forall k :: 0 <= k < buf.Length ==> buf[..][k] == Patch(was, at, s)[k];
  }
}
