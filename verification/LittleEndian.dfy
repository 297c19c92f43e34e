/** Little-endian integer fields, as the packed structures of include/waydisplay/wd_protocol.h lay them out. */
module LittleEndian {
  import opened Wrappers

  function Pow256(n: nat): nat { if n == 0 then 1 else 256 * Pow256(n - 1) }

  function LE(n: nat, v: nat): (s: seq<Byte>)
    ensures |s| == n
  {
    if n == 0 then [] else [v % 256] + LE(n - 1, v / 256)
  }

  function FromLE(s: seq<Byte>): nat
  {
    if s == [] then 0 else s[0] + 256 * FromLE(s[1..])
  }

  lemma {:induction false} LERoundTrip(n: nat, v: nat)
    requires v < Pow256(n)
    ensures FromLE(LE(n, v)) == v
  {
    if n > 0 {
      LERoundTrip(n - 1, v / 256);
      assert LE(n, v)[1..] == LE(n - 1, v / 256);
    }
  }

  lemma {:induction false} LEOfBytes(s: seq<Byte>)
    ensures LE(|s|, FromLE(s)) == s && FromLE(s) < Pow256(|s|)
  {
    if s != [] {
      LEOfBytes(s[1..]);
      assert s == [s[0]] + s[1..];
    }
  }
}
