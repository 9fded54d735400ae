/** Fixed-width integers as bytes: `to_be_bytes`, `to_le_bytes`, `get_u64` and their kin. */
module EdtBytes {
  import opened Prelude

  function Little(x: nat, n: nat): (b: seq<Byte>)
    ensures |b| == n
  {
    if n == 0 then [] else [x % 256] + Little(x / 256, n - 1)
  }

  function Big(x: nat, n: nat): (b: seq<Byte>)
    ensures |b| == n
  {
    if n == 0 then [] else Big(x / 256, n - 1) + [x % 256]
  }

  function FromLittle(b: seq<Byte>): nat {
    if b == [] then 0 else b[0] + 256 * FromLittle(b[1..])
  }

  function FromBig(b: seq<Byte>): nat {
    if b == [] then 0 else 256 * FromBig(b[..|b| - 1]) + b[|b| - 1]
  }

  function Num(x: nat, n: nat, big: bool): (b: seq<Byte>)
    ensures |b| == n
  {
    if big then Big(x, n) else Little(x, n)
  }

  function FromNum(b: seq<Byte>, big: bool): nat {
    if big then FromBig(b) else FromLittle(b)
  }

  function Pow256(n: nat): nat {
    if n == 0 then 1 else 256 * Pow256(n - 1)
  }

  lemma {:induction false} NumRoundTrip(x: nat, n: nat, big: bool)
    requires x < Pow256(n)
    ensures FromNum(Num(x, n, big), big) == x
  {
    if n > 0 {
      NumRoundTrip(x / 256, n - 1, big);
      if big {
        assert Big(x, n)[..n - 1] == Big(x / 256, n - 1);
      } else {
        assert Little(x, n)[1..] == Little(x / 256, n - 1);
      }
    }
  }

  /** `x >> 8 * bytes`. */
  function Shifted(x: nat, bytes: nat): nat {
    if bytes == 0 then x else Shifted(x / 256, bytes - 1)
  }

  /** Every byte is a digit to base 256: the least significant comes first, or last. */
  lemma {:induction false} NumExactly(x: nat, n: nat, i: nat)
    requires i < n
    ensures Num(x, n, false)[i] == Num(x, n, true)[n - 1 - i] == Shifted(x, i) % 256
  {
    if i > 0 { NumExactly(x / 256, n - 1, i - 1); }
  }

  lemma Widths()
    ensures Pow256(1) == 0x100 && Pow256(2) == 0x1_0000
    ensures Pow256(4) == 0x1_0000_0000 && Pow256(8) == 0x1_0000_0000_0000_0000
  {
    assert Pow256(3) == 0x100_0000;
    assert Pow256(5) == 0x100_0000_0000;
    assert Pow256(6) == 0x1_0000_0000_0000;
    assert Pow256(7) == 0x100_0000_0000_0000;
  }

  lemma {:induction false} FromBigBound(b: seq<Byte>)
    ensures FromBig(b) < Pow256(|b|)
  {
    if b != [] { FromBigBound(b[..|b| - 1]); }
  }

  lemma {:induction false} FromBigInjective(a: seq<Byte>, b: seq<Byte>)
    requires |a| == |b| && FromBig(a) == FromBig(b)
    ensures a == b
  {
    if a != [] {
      var n := |a| - 1;
      FromBigInjective(a[..n], b[..n]);
      assert a == a[..n] + [a[n]] && b == b[..n] + [b[n]];
    }
  }

  /** A number below 256 written big-endian is zero bytes and then the number. */
  lemma {:induction false} SmallBig(x: Byte, n: nat)
    requires n > 0
    ensures Big(x, n)[n - 1] == x && forall i :: 0 <= i < n - 1 ==> Big(x, n)[i] == 0
  {
    assert x / 256 == 0;
    if n > 1 { SmallBig(0, n - 1); }
  }
}
