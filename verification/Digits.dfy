/** Numbers and their bytes. */
module Digits {
  import opened Basics

  function Low(x: int): byte {
    x % 256
  }

  /** The number whose base-256 digits, least significant first, are the bytes. */
  function Little(s: seq<byte>): nat {
    if s == [] then 0 else s[0] + 256 * Little(s[1..])
  }

  lemma {:induction false} LittlePush(s: seq<byte>, b: byte)
    ensures Little(s + [b]) == Little(s) + b * Pow256(|s|)
  {
    if s == [] {
      assert [b][1..] == [];
    } else {
      assert (s + [b])[1..] == s[1..] + [b];
      LittlePush(s[1..], b);
      var p := Pow256(|s| - 1);
      assert 256 * (b * p) == b * (256 * p);
    }
  }

  function Pow256(n: nat): (r: nat)
    ensures r >= 1
  {
    if n == 0 then 1 else 256 * Pow256(n - 1)
  }

  lemma {:induction false} LittleBound(s: seq<byte>)
    ensures Little(s) < Pow256(|s|)
  {
    if s != [] { LittleBound(s[1..]); }
  }

  /** Reading loses nothing: as many bytes with the same value are the same bytes. */
  lemma {:induction false} LittleInjective(s: seq<byte>, t: seq<byte>)
    requires |s| == |t| && Little(s) == Little(t)
    ensures s == t
  {
    if s != [] {
      assert s[0] == Little(s) % 256 && t[0] == Little(t) % 256;
      LittleInjective(s[1..], t[1..]);
      assert s == [s[0]] + s[1..] && t == [t[0]] + t[1..];
    }
  }

  /** The k low bytes of a number, least significant first. */
  function LittleBytes(n: nat, k: nat): (r: seq<byte>)
    ensures |r| == k
  {
    if k == 0 then [] else [n % 256] + LittleBytes(n / 256, k - 1)
  }

  lemma {:induction false} LittleOfLittleBytes(n: nat, k: nat)
    requires n < Pow256(k)
    ensures Little(LittleBytes(n, k)) == n
    decreases k
  {
    if k > 0 {
      LittleOfLittleBytes(n / 256, k - 1);
      assert LittleBytes(n, k)[1..] == LittleBytes(n / 256, k - 1);
    }
  }
}
