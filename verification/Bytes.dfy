/** Bytes, machine words, 32-byte digests and the two encodings everything else is built from:
    fixed-width little-endian integers and the lexicographic order on equally long byte strings. */
module Bytes {
  newtype byte = b: int | 0 <= b < 256

  const TWO64: nat := 0x1_0000_0000_0000_0000

  type u64 = n: int | 0 <= n < 0x1_0000_0000_0000_0000

  /** A 32-byte array. */
  type Digest = d: seq<byte> | |d| == 32 witness seq(32, _ => 0)

  function Zeros(n: nat): (s: seq<byte>)
    ensures |s| == n && forall i :: 0 <= i < n ==> s[i] == 0
  {
    seq(n, _ => 0)
  }

  datatype Option<+T> = None | Some(value: T)

  datatype Result<+T, +E> = Ok(value: T) | Err(error: E)

  // ---------- little-endian integers ----------

  function Pow256(k: nat): (p: nat)
    ensures p > 0
  {
    if k == 0 then 1 else 256 * Pow256(k - 1)
  }

  /** The low `k` bytes of `n`, least significant first. */
  function LE(n: nat, k: nat): (s: seq<byte>)
    ensures |s| == k
  {
    if k == 0 then [] else [(n % 256) as byte] + LE(n / 256, k - 1)
  }

  function FromLE(s: seq<byte>): nat {
    if s == [] then 0 else s[0] as nat + 256 * FromLE(s[1..])
  }

  lemma {:induction false} FromLEOfLE(n: nat, k: nat)
    requires n < Pow256(k)
    ensures FromLE(LE(n, k)) == n
  {
    if k == 0 {
    } else {
      FromLEOfLE(n / 256, k - 1);
      assert LE(n, k)[1..] == LE(n / 256, k - 1);
    }
  }

  lemma {:induction false} LEOfFromLE(s: seq<byte>)
    ensures FromLE(s) < Pow256(|s|)
    ensures LE(FromLE(s), |s|) == s
  {
    if s == [] {
    } else {
      var rest := FromLE(s[1..]);
      LEOfFromLE(s[1..]);
      LowByte(s[0], rest);
      assert FromLE(s) == s[0] as nat + 256 * rest && Pow256(|s|) == 256 * Pow256(|s| - 1);
      assert LE(FromLE(s), |s|) == [s[0]] + LE(rest, |s| - 1);
      assert s == [s[0]] + s[1..];
    }
  }

  lemma LowByte(b: byte, rest: nat)
    ensures (b as nat + 256 * rest) % 256 == b as nat && (b as nat + 256 * rest) / 256 == rest
  {
  }

  /** `to_le_bytes` on a 64-bit word. */
  function LE8(n: u64): (s: seq<byte>)
    ensures |s| == 8
  {
    LE(n, 8)
  }

  lemma Pow256Of8()
    ensures Pow256(8) == TWO64
  {
  }

  /** `from_le_bytes` on eight bytes. */
  function FromLE8(s: seq<byte>): (n: u64)
    requires |s| == 8
    ensures LE8(n) == s
  {
    LEOfFromLE(s);
    Pow256Of8();
    FromLE(s)
  }

  lemma LE8RoundTrip(n: u64)
    ensures FromLE8(LE8(n)) == n
  {
    Pow256Of8();
    FromLEOfLE(n, 8);
  }

  lemma LE8Injective(m: u64, n: u64)
    requires LE8(m) == LE8(n)
    ensures m == n
  {
    LE8RoundTrip(m);
    LE8RoundTrip(n);
  }

  /** A concatenation is determined piece by piece once the length of its head is known. */
  lemma CutAt(a: seq<byte>, b: seq<byte>, c: seq<byte>, d: seq<byte>)
    requires |a| == |c| && a + b == c + d
    ensures a == c && b == d
  {
    assert a == (a + b)[..|a|] && b == (a + b)[|a|..];
    assert c == (c + d)[..|c|] && d == (c + d)[|c|..];
  }

  // ---------- concatenation ----------

  function Flatten(parts: seq<seq<byte>>): seq<byte> {
    if parts == [] then [] else Flatten(parts[..|parts| - 1]) + parts[|parts| - 1]
  }

  lemma FlattenPair(parts: seq<seq<byte>>)
    requires |parts| == 2
    ensures Flatten(parts) == parts[0] + parts[1]
  {
    assert parts[..1] == [parts[0]] && parts[..1][..0] == [];
    assert Flatten(parts[..1]) == [] + parts[0];
  }

  method AppendAll(head: seq<byte>, parts: seq<seq<byte>>) returns (b: seq<byte>)
    ensures b == head + Flatten(parts)
  {
    b := head;
    for i := 0 to |parts|
      invariant b == head + Flatten(parts[..i])
    {
      assert parts[..i + 1][..i] == parts[..i];
      b := b + parts[i];
    }
    assert parts[..|parts|] == parts;
  }

  // ---------- lexicographic order ----------

  /** The order of `[u8; N]` values: first differing byte decides. */
  predicate Less(a: seq<byte>, b: seq<byte>)
    requires |a| == |b|
  {
    a != [] && (a[0] < b[0] || (a[0] == b[0] && Less(a[1..], b[1..])))
  }

  lemma {:induction false} LessTrichotomy(a: seq<byte>, b: seq<byte>)
    requires |a| == |b|
    ensures a != b ==> (Less(a, b) <==> !Less(b, a))
    ensures a == b ==> !Less(a, b)
  {
    if a == [] {
    } else {
      LessTrichotomy(a[1..], b[1..]);
      if a[0] == b[0] && a != b {
        assert a == [a[0]] + a[1..] && b == [b[0]] + b[1..];
      }
    }
  }

  lemma {:induction false} LessTransitive(a: seq<byte>, b: seq<byte>, c: seq<byte>)
    requires |a| == |b| == |c|
    requires Less(a, b) && Less(b, c)
    ensures Less(a, c)
  {
    if a[0] == b[0] == c[0] {
      LessTransitive(a[1..], b[1..], c[1..]);
    }
  }

  /** The order is lexicographic: the first place where the strings differ decides. */
  lemma {:induction false} LessLexicographic(a: seq<byte>, b: seq<byte>)
    requires |a| == |b|
    ensures Less(a, b) <==> exists k :: 0 <= k < |a| && a[..k] == b[..k] && a[k] < b[k]
  {
    if a == [] {
    } else {
      LessLexicographic(a[1..], b[1..]);
      if Less(a, b) {
        if a[0] < b[0] {
          assert a[..0] == b[..0];
        } else {
          var k :| 0 <= k < |a[1..]| && a[1..][..k] == b[1..][..k] && a[1..][k] < b[1..][k];
          assert a[..k + 1] == [a[0]] + a[1..][..k] && b[..k + 1] == [b[0]] + b[1..][..k];
          assert a[k + 1] < b[k + 1];
        }
      }
      if k :| 0 <= k < |a| && a[..k] == b[..k] && a[k] < b[k] {
        if k > 0 {
          assert a[0] == a[..k][0] == b[..k][0] == b[0];
          assert a[1..][..k - 1] == a[..k][1..] == b[..k][1..] == b[1..][..k - 1];
          assert a[1..][k - 1] < b[1..][k - 1];
        }
      }
    }
  }
}
