/** Types shared by the models. */
module Prelude {

  /** Absent or present value: a C++ null pointer or Rust `None`. */
  datatype Option<+T> = None | Some(value: T)

  type Byte = b: int | 0 <= b < 256
  type U16 = x: int | 0 <= x < 0x1_0000
  type U32 = x: int | 0 <= x < 0x1_0000_0000
  type U64 = x: int | 0 <= x < 0x1_0000_0000_0000_0000

  /** `order` lists every element of `s` once: the iteration order of a hash table or ordered map. */
  ghost predicate Enumerates<T(!new)>(order: seq<T>, s: set<T>) {
    && (forall x :: x in order <==> x in s)
    && (forall i, j :: 0 <= i < j < |order| ==> order[i] != order[j])
  }

  /** Append `v` to the list kept under `k`. */
  function Pushed<K, V>(m: map<K, seq<V>>, k: K, v: V): map<K, seq<V>> {
    m[k := (if k in m then m[k] else []) + [v]]
  }

  function PushedAll<K, V>(m: map<K, seq<V>>, k: K, vs: seq<V>): map<K, seq<V>> {
    if vs == [] then m else Pushed(PushedAll(m, k, vs[..|vs| - 1]), k, vs[|vs| - 1])
  }

  lemma OverwriteTwice<K, V>(m: map<K, V>, k: K, a: V, b: V)
    ensures m[k := a][k := b] == m[k := b]
  {
  }

  lemma {:induction false} PushedAllIsOneList<K, V>(m: map<K, seq<V>>, k: K, vs: seq<V>)
    requires k !in m && vs != []
    ensures PushedAll(m, k, vs) == m[k := vs]
  {
    var front, last := vs[..|vs| - 1], vs[|vs| - 1];
    assert front + [last] == vs;
    if front == [] {
      assert PushedAll(m, k, front) == m;
    } else {
      PushedAllIsOneList(m, k, front);
      OverwriteTwice(m, k, front, vs);
    }
  }

  lemma SomeKey<K, V>(m: map<K, V>, v: V) returns (k: K)
    requires v in m.Values
    ensures k in m && m[k] == v
  {
    k :| k in m && m[k] == v;
  }

  lemma Pick<T>(s: set<T>) returns (x: T)
    requires s != {}
    ensures x in s
  {
    x :| x in s;
  }

  /** Adding a new value, or taking out one that stands under one key only. */
  lemma ValuesAfter<K, V>(m: map<K, V>, k: K, v: V)
    ensures k !in m ==> m[k := v].Values == m.Values + {v}
    ensures k in m && (forall j :: j in m && m[j] == m[k] ==> j == k) ==> (m - {k}).Values == m.Values - {m[k]}
  {
    if k !in m {
      var now := m[k := v];
      forall t | t in m.Values ensures t in now.Values {
        var i := SomeKey(m, t);
        assert now[i] == t;
      }
      assert now[k] == v;
    } else {
      var now := m - {k};
      forall t | t in m.Values && t != m[k] ensures t in now.Values {
        var i := SomeKey(m, t);
        assert now[i] == t;
      }
    }
  }

  lemma Assoc<T>(a: seq<T>, b: seq<T>, c: seq<T>)
    ensures a + b + c == a + (b + c)
  {
  }

  /** `piece` stands at `pos` in `whole`. */
  ghost predicate At<T>(whole: seq<T>, pos: nat, piece: seq<T>) {
    pos + |piece| <= |whole| && whole[pos..pos + |piece|] == piece
  }

  lemma AtLeft<T>(a: seq<T>, b: seq<T>, pos: nat, piece: seq<T>)
    requires At(a, pos, piece)
    ensures At(a + b, pos, piece)
  {
    assert (a + b)[pos..pos + |piece|] == a[pos..pos + |piece|];
  }

  lemma AtRight<T>(a: seq<T>, b: seq<T>, pos: nat, piece: seq<T>)
    requires At(b, pos, piece)
    ensures At(a + b, |a| + pos, piece)
  {
    assert (a + b)[|a| + pos..|a| + pos + |piece|] == b[pos..pos + |piece|];
  }

  lemma AtWithin<T>(whole: seq<T>, pos: nat, part: seq<T>, k: nat, piece: seq<T>)
    requires At(whole, pos, part) && At(part, k, piece)
    ensures At(whole, pos + k, piece)
  {
    forall i | 0 <= i < |piece| ensures whole[pos + k + i] == piece[i] {
      assert whole[pos + (k + i)] == part[k + i];
      assert part[k + i] == piece[i];
    }
  }

  lemma AtAll<T>(whole: seq<T>)
    ensures At(whole, 0, whole)
  {
  }

  // ---------- decimal numbers ----------

  function Digit(d: nat): char
    requires d < 10
  {
    (d as char) + '0'
  }

  /** `std::to_string`, and Rust's `{}` of an unsigned integer. */
  function Decimal(n: nat): string {
    if n < 10 then [Digit(n)] else Decimal(n / 10) + [Digit(n % 10)]
  }

  lemma {:induction false} DecimalHasDigits(n: nat)
    ensures '_' !in Decimal(n) && |Decimal(n)| > 0
  {
    if n >= 10 { DecimalHasDigits(n / 10); }
  }

  lemma {:induction false} DecimalInjective(m: nat, n: nat)
    requires Decimal(m) == Decimal(n)
    ensures m == n
  {
    var a, b := Decimal(m), Decimal(n);
    assert a[|a| - 1] == b[|b| - 1];
    if m >= 10 && n >= 10 {
      assert a[..|a| - 1] == Decimal(m / 10) && b[..|b| - 1] == Decimal(n / 10);
      DecimalInjective(m / 10, n / 10);
    } else if m >= 10 {
      DecimalHasDigits(m / 10);
    } else if n >= 10 {
      DecimalHasDigits(n / 10);
    }
  }
}
