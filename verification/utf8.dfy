/** UTF-8, as Rust strings are stored, and the characters that count as white space. */
module Utf8 {
  import opened Prelude

  /** A Unicode scalar value: Rust's `char`. */
  type Rune = r: int | 0 <= r < 0x11_0000 && !(0xD800 <= r < 0xE000)

  function EncodeRune(r: Rune): (b: seq<Byte>)
    ensures 1 <= |b| <= 4
  {
    if r < 0x80 then [r]
    else if r < 0x800 then [0xC0 + r / 64, 0x80 + r % 64]
    else if r < 0x1_0000 then [0xE0 + r / 4096, 0x80 + r / 64 % 64, 0x80 + r % 64]
    else [0xF0 + r / 262144, 0x80 + r / 4096 % 64, 0x80 + r / 64 % 64, 0x80 + r % 64]
  }

  function Encode(t: seq<Rune>): seq<Byte> {
    if t == [] then [] else EncodeRune(t[0]) + Encode(t[1..])
  }

  lemma {:induction false} EncodeJoins(a: seq<Rune>, b: seq<Rune>)
    ensures Encode(a + b) == Encode(a) + Encode(b)
  {
    hide EncodeRune;
    if a == [] {
      assert a + b == b;
    } else {
      EncodeJoins(a[1..], b);
      assert (a + b)[1..] == a[1..] + b;
      Assoc(EncodeRune(a[0]), Encode(a[1..]), Encode(b));
    }
  }

  /** An ASCII character is its own byte, and no other character has an ASCII byte. */
  lemma AsciiBytes(r: Rune)
    ensures r < 128 ==> EncodeRune(r) == [r]
    ensures r >= 128 ==> forall b :: b in EncodeRune(r) ==> b >= 128
  {
  }

  lemma SameRune(r: Rune, r': Rune)
    requires EncodeRune(r) == EncodeRune(r')
    ensures r == r'
  {
    var b := EncodeRune(r);
    if |b| == 1 {
    } else if |b| == 2 {
      assert r == r / 64 * 64 + r % 64 && r' == r' / 64 * 64 + r' % 64;
    } else if |b| == 3 {
      Digits3(r);
      Digits3(r');
    } else {
      Digits4(r);
      Digits4(r');
    }
  }

  lemma Digits3(r: nat)
    ensures r == r / 4096 * 4096 + r / 64 % 64 * 64 + r % 64
  {
    assert r / 64 / 64 == r / 4096;
  }

  lemma Digits4(r: nat)
    ensures r == r / 262144 * 262144 + r / 4096 % 64 * 4096 + r / 64 % 64 * 64 + r % 64
  {
    Digits3(r);
    assert r / 4096 / 64 == r / 262144;
  }

  /** The first byte tells the length. */
  lemma LengthOfRune(r: Rune)
    ensures var b := EncodeRune(r);
            |b| == if b[0] < 0x80 then 1 else if b[0] < 0xE0 then 2 else if b[0] < 0xF0 then 3 else 4
  {
  }

  lemma {:induction false} EncodeInjective(t: seq<Rune>, t': seq<Rune>)
    requires Encode(t) == Encode(t')
    ensures t == t'
  {
    hide EncodeRune;
    if t != [] && t' != [] {
      var a, b, x, y := EncodeRune(t[0]), EncodeRune(t'[0]), Encode(t[1..]), Encode(t'[1..]);
      assert (a + x)[0] == a[0] && (b + y)[0] == b[0];
      LengthOfRune(t[0]);
      LengthOfRune(t'[0]);
      assert a == (a + x)[..|a|] == (b + y)[..|b|] == b;
      SameRune(t[0], t'[0]);
      assert x == (a + x)[|a|..] == (b + y)[|b|..] == y;
      EncodeInjective(t[1..], t'[1..]);
    }
  }

  /** A text whose bytes hold an ASCII byte can be cut there. */
  lemma {:induction false} CutAtAscii(t: seq<Rune>, x: seq<Byte>, m: Byte, y: seq<Byte>) returns (a: seq<Rune>, b: seq<Rune>)
    requires m < 128 && Encode(t) == x + [m] + y
    ensures t == a + [m] + b && Encode(a) == x && Encode(b) == y
  {
    hide EncodeRune;
    var first, rest := EncodeRune(t[0]), Encode(t[1..]);
    AsciiBytes(t[0]);
    if x == [] {
      assert (x + [m] + y)[0] == m && first[0] in first && (first + rest)[0] == first[0];
      assert [] + [m] + y == [m] + y && first == [m];
      assert rest == (first + rest)[1..] && y == ([m] + y)[1..];
      a, b := [], t[1..];
      assert [] + [t[0]] + t[1..] == t;
    } else {
      BeforeTheMark(first, rest, x, m, y);
      var x' := x[|first|..];
      var a', b' := CutAtAscii(t[1..], x', m, y);
      a, b := [t[0]] + a', b';
      assert a[1..] == a';
      assert t == [t[0]] + t[1..];
    }
  }

  lemma BeforeTheMark(first: seq<Byte>, rest: seq<Byte>, x: seq<Byte>, m: Byte, y: seq<Byte>)
    requires first + rest == x + [m] + y && x != [] && m < 128
    requires |first| == 1 || forall b :: b in first ==> b >= 128
    ensures |first| <= |x| && x == first + x[|first|..] && rest == x[|first|..] + [m] + y
  {
    var whole := first + rest;
    assert whole[|x|] == m;
    assert forall i :: 0 <= i < |first| ==> whole[i] == first[i] && first[i] in first;
    assert |first| <= |x|;
    assert x == whole[..|x|] && first == whole[..|first|];
    assert rest == whole[|first|..];
  }

  // ---------- white space ----------

  /** The Unicode property White_Space, which `char::is_whitespace` tests. */
  predicate Blank(r: Rune) {
    || 9 <= r <= 13 || r == 0x20 || r == 0x85 || r == 0xA0 || r == 0x1680 || 0x2000 <= r <= 0x200A
    || r == 0x2028 || r == 0x2029 || r == 0x202F || r == 0x205F || r == 0x3000
  }

  predicate BlankFree(t: seq<Rune>) { forall r :: r in t ==> !Blank(r) }

  /** Remove all white space. */
  function Strip(t: seq<Rune>): seq<Rune> {
    if t == [] then [] else if Blank(t[0]) then Strip(t[1..]) else [t[0]] + Strip(t[1..])
  }

  lemma {:induction false} StripIs(t: seq<Rune>)
    ensures BlankFree(Strip(t)) && (BlankFree(t) ==> Strip(t) == t)
  {
    if t != [] {
      StripIs(t[1..]);
      assert t == [t[0]] + t[1..];
    }
  }

  lemma {:induction false} StripJoins(a: seq<Rune>, b: seq<Rune>)
    ensures Strip(a + b) == Strip(a) + Strip(b)
  {
    hide Blank;
    if a == [] {
      assert a + b == b;
    } else {
      StripJoins(a[1..], b);
      assert (a + b)[0] == a[0] && (a + b)[1..] == a[1..] + b;
      assert Strip(a + b) == if Blank(a[0]) then Strip(a[1..] + b) else [a[0]] + Strip(a[1..] + b);
    }
  }

  /** White space between two pieces of a text does not matter. */
  lemma StripIgnores(a: seq<Rune>, space: seq<Rune>, b: seq<Rune>)
    requires forall r :: r in space ==> Blank(r)
    ensures Strip(a + space + b) == Strip(a + b)
  {
    StripJoins(a + space, b);
    StripJoins(a, space);
    StripJoins(a, b);
    AllBlank(space);
    hide Blank, Strip;
  }

  lemma {:induction false} AllBlank(space: seq<Rune>)
    requires forall r :: r in space ==> Blank(r)
    ensures Strip(space) == []
  {
    if space != [] {
      assert space[0] in space;
      AllBlank(space[1..]);
    }
  }

  /** The white space of Unicode, code point by code point. */
  const WHITE_SPACE: set<int> := {
    9, 10, 11, 12, 13, 0x20, 0x85, 0xA0, 0x1680,
    0x2000, 0x2001, 0x2002, 0x2003, 0x2004, 0x2005, 0x2006, 0x2007, 0x2008, 0x2009, 0x200A,
    0x2028, 0x2029, 0x202F, 0x205F, 0x3000
  }

  /** A listed character is removed wherever it stands, and every other one stays in its place. */
  lemma StripExactly(a: seq<Rune>, r: Rune, b: seq<Rune>)
    ensures r in WHITE_SPACE ==> Strip(a + [r] + b) == Strip(a + b)
    ensures r !in WHITE_SPACE ==> Strip(a + [r] + b) == Strip(a) + [r] + Strip(b)
  {
    assert Strip([r]) == if r in WHITE_SPACE then [] else [r] by {
      assert [r][1..] == [] && Strip([]) == [];
      assert Blank(r) <==> r in WHITE_SPACE;
    }
    hide Strip;
    StripJoins(a + [r], b);
    StripJoins(a, [r]);
    StripJoins(a, b);
    assert Strip(a) + [] == Strip(a);
  }

  /** What is left holds none of them. */
  lemma NoneLeft(t: seq<Rune>)
    ensures forall r :: r in Strip(t) ==> r !in WHITE_SPACE
  {
    StripIs(t);
    hide Strip;
  }

  /** One character of each length: e with an acute accent, the euro sign, and a face. */
  lemma KnownEncodings()
    ensures EncodeRune(0x41) == [0x41] && EncodeRune(0xE9) == [0xC3, 0xA9]
    ensures EncodeRune(0x20AC) == [0xE2, 0x82, 0xAC] && EncodeRune(0x1F600) == [0xF0, 0x9F, 0x98, 0x80]
  {
  }
}
