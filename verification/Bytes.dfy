/** Little-endian numbers in byte strings, and byte strings in arrays. */
module Bytes {
  import opened Machine

  /** `n` bytes as a number, lowest first. */
  function Number(t: seq<Byte>, o: nat, n: nat): nat
    requires o + n <= |t|
    decreases n
  {
    if n == 0 then 0 else
      var first: nat := t[o];
      first + 0x100 * Number(t, o + 1, n - 1)
  }

  function Decode(s: seq<Byte>): nat {
    Number(s, 0, |s|)
  }

  function EncodeNumber(v: nat, n: nat): (s: seq<Byte>)
    ensures |s| == n
  {
    if n == 0 then [] else [v % 0x100] + EncodeNumber(v / 0x100, n - 1)
  }

  /** How many numbers fit `n` bytes. */
  function Limit(n: nat): (limit: nat)
    ensures limit > 0
  {
    if n == 0 then 1 else 0x100 * Limit(n - 1)
  }

  lemma Limits()
    ensures Limit(4) == U32 && Limit(8) == U64
  {
    assert Limit(2) == 0x10000;
    assert Limit(6) == 0x10000 * Limit(4);
  }

  /** An encoded number is read back, as far as the bytes reach. */
  lemma {:induction false} NumberEncoded(t: seq<Byte>, o: nat, v: nat, n: nat)
    requires o + n <= |t| && t[o..o + n] == EncodeNumber(v, n)
    ensures Number(t, o, n) == v % Limit(n)
    decreases n
  {
    if n > 0 {
      var s := t[o..o + n];
      assert s[0] == t[o];
      assert t[o + 1..o + n] == s[1..] == EncodeNumber(v / 0x100, n - 1);
      NumberEncoded(t, o + 1, v / 0x100, n - 1);
      SplitMod(v, Limit(n - 1));
    }
  }

  lemma SplitMod(v: nat, p: nat)
    requires p > 0
    ensures v % (0x100 * p) == v % 0x100 + 0x100 * (v / 0x100 % p)
  {
    var q, r := v / 0x100 / p, v / 0x100 % p;
    assert v / 0x100 == q * p + r;
    assert q * (0x100 * p) == 0x100 * (q * p);
    DivModUnique(v, q, 0x100 * r + v % 0x100, 0x100 * p);
  }

  lemma NumberDecodes(t: seq<Byte>, o: nat, v: nat, n: nat)
    requires o + n <= |t| && t[o..o + n] == EncodeNumber(v, n) && v < Limit(n)
    ensures Number(t, o, n) == v
  {
    NumberEncoded(t, o, v, n);
    DivModUnique(v, 0, v, Limit(n));
  }

  lemma DecodeEncoded(v: nat, n: nat)
    ensures Decode(EncodeNumber(v, n)) == v % Limit(n)
  {
    var s := EncodeNumber(v, n);
    assert s[0..n] == s;
    NumberEncoded(s, 0, v, n);
  }

  lemma {:induction false} NumberSnoc(t: seq<Byte>, o: nat, n: nat)
    requires o + n < |t|
    ensures Number(t, o, n + 1) == Number(t, o, n) + t[o + n] * Limit(n)
    decreases n
  {
    if n > 0 {
      NumberSnoc(t, o + 1, n - 1);
      var b: nat := t[o + n];
      assert 0x100 * (b * Limit(n - 1)) == b * (0x100 * Limit(n - 1));
    }
  }

  /** Copies a byte string into an array. */
  method Store(a: array<Byte>, at: nat, data: seq<Byte>)
    requires at + |data| <= a.Length
    modifies a
    ensures a[..] == old(a[..at]) + data + old(a[at + |data|..])
  {
    ghost var was := a[..];
    for i := 0 to |data|
      invariant a[..] == was[..at] + data[..i] + was[at + i..]
    {
      a[at + i] := data[i];
    }
  }

  method Put(a: array<Byte>, at: nat, data: seq<Byte>)
    requires at + |data| <= a.Length
    modifies a
    ensures forall k :: 0 <= k < a.Length ==> a[k] == if at <= k < at + |data| then data[k - at] else old(a[k])
  {
    Store(a, at, data);
  }
}
