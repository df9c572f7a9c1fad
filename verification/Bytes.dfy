/** Byte strings: big-endian numbers, and comparison byte by byte. */
module Bytes {
  type Byte = b: nat | b < 256

  function Pow256(n: nat): (r: nat)
    ensures r > 0
  {
    if n == 0 then 1 else 256 * Pow256(n - 1)
  }

  /** The number that the bytes spell, most significant first. */
  function Value(s: seq<Byte>): nat {
    if s == [] then 0 else s[0] * Pow256(|s| - 1) + Value(s[1..])
  }

  /** The lowest n bytes of v, most significant first. */
  function BigEndian(v: nat, n: nat): (s: seq<Byte>)
    ensures |s| == n
  {
    if n == 0 then [] else BigEndian(v / 256, n - 1) + [v % 256]
  }

  lemma {:induction false} ValueSnoc(s: seq<Byte>, b: Byte)
    ensures Value(s + [b]) == 256 * Value(s) + b
  {
    if s == [] {
      assert (s + [b])[1..] == [];
    } else {
      ValueSnoc(s[1..], b);
      assert (s + [b])[1..] == s[1..] + [b];
      assert Pow256(|s|) == 256 * Pow256(|s| - 1);
      Times256(s[0], Pow256(|s| - 1));
    }
  }

  lemma Times256(a: nat, p: nat)
    ensures a * (256 * p) == 256 * (a * p)
  {
  }

  /** A number below 256^n survives being written and read. */
  lemma {:induction false} ValueOfBigEndian(v: nat, n: nat)
    requires v < Pow256(n)
    ensures Value(BigEndian(v, n)) == v
  {
    if n > 0 {
      ValueOfBigEndian(v / 256, n - 1);
      ValueSnoc(BigEndian(v / 256, n - 1), v % 256);
    }
  }

  lemma {:induction false} ValueBound(s: seq<Byte>)
    ensures Value(s) < Pow256(|s|)
  {
    if s != [] {
      ValueBound(s[1..]);
      Below(s[0], Pow256(|s| - 1));
    }
  }

  lemma Below(a: Byte, p: nat)
    ensures a * p + p <= 256 * p
  {
  }

  // ---------------------------------------------------------------- memcmp

  datatype Order = Less | Equal | Greater

  /** memcmp on strings of one length. */
  function Compare(a: seq<Byte>, b: seq<Byte>): Order
    requires |a| == |b|
  {
    if a == [] then Equal
    else if a[0] < b[0] then Less
    else if a[0] > b[0] then Greater
    else Compare(a[1..], b[1..])
  }

  function OrderOf(a: nat, b: nat): Order { if a < b then Less else if a > b then Greater else Equal }

  /** Comparing byte by byte is comparing the big-endian numbers: keys may be taken as numbers. */
  lemma {:induction false} CompareIsNumeric(a: seq<Byte>, b: seq<Byte>)
    requires |a| == |b|
    ensures Compare(a, b) == OrderOf(Value(a), Value(b))
  {
    if a != [] {
      ValueBound(a[1..]);
      ValueBound(b[1..]);
      if a[0] < b[0] { Ahead(a[0], b[0], Pow256(|a| - 1)); }
      else if a[0] > b[0] { Ahead(b[0], a[0], Pow256(|a| - 1)); }
      else { CompareIsNumeric(a[1..], b[1..]); }
    }
  }

  lemma Ahead(a: nat, b: nat, p: nat)
    requires a < b
    ensures a * p + p <= b * p
  {
    assert (a + 1) * p <= b * p by { Monotone(a + 1, b, p); }
    assert (a + 1) * p == a * p + p;
  }

  lemma Monotone(x: nat, y: nat, p: nat)
    requires x <= y
    ensures x * p <= y * p
  {
    var d := y - x;
    assert y * p == x * p + d * p;
  }

  /** Different byte strings of one length spell different numbers. */
  lemma {:induction false} ValueInjective(a: seq<Byte>, b: seq<Byte>)
    requires |a| == |b| && Value(a) == Value(b)
    ensures a == b
  {
    CompareIsNumeric(a, b);
    CompareEqual(a, b);
  }

  lemma {:induction false} CompareEqual(a: seq<Byte>, b: seq<Byte>)
    requires |a| == |b|
    ensures Compare(a, b) == Equal <==> a == b
  {
    if a != [] {
      CompareEqual(a[1..], b[1..]);
      assert a == [a[0]] + a[1..] && b == [b[0]] + b[1..];
    }
  }

  /** The first five bytes of a key are its number without the lowest fifteen bytes. */
  lemma {:induction false} PrefixValue(s: seq<Byte>, n: nat)
    requires n <= |s|
    ensures Value(s[..n]) == Value(s) / Pow256(|s| - n)
    decreases |s| - n
  {
    if n == |s| {
      assert s[..n] == s;
    } else {
      PrefixValue(s, n + 1);
      assert s[..n + 1] == s[..n] + [s[n]];
      ValueSnoc(s[..n], s[n]);
      assert Value(s[..n]) == Value(s[..n + 1]) / 256;
      DivDiv(Value(s), Pow256(|s| - n - 1));
    }
  }

  lemma DivDiv(v: nat, p: nat)
    requires p > 0
    ensures (v / p) / 256 == v / (256 * p)
  {
    var q, r := v / p, v % p;
    var q1, r1 := q / 256, q % 256;
    assert v == q * p + r && q == q1 * 256 + r1;
    assert v == (q1 * 256 + r1) * p + r;
    assert (q1 * 256 + r1) * p == q1 * (256 * p) + r1 * p;
    Below(r1, p);
    assert r1 * p + r < 256 * p;
    DivUnique(v, 256 * p, q1, r1 * p + r);
  }

  lemma DivUnique(v: nat, m: nat, q: nat, r: nat)
    requires m > 0 && v == q * m + r && r < m
    ensures v / m == q
  {
    var x, y := v / m, v % m;
    assert x * m + y == q * m + r && y < m;
    hide *;
    SameQuotient(x, y, q, r, m);
  }

  lemma SameQuotient(x: nat, y: nat, q: nat, r: nat, m: nat)
    requires x * m + y == q * m + r && y < m && r < m
    ensures x == q
  {
    if x < q { Ahead(x, q, m); }
    if q < x { Ahead(q, x, m); }
  }

  // ---------------------------------------------------------------- fields copied from memory

  /** The lowest n bytes of v, least significant first. */
  function Little(v: nat, n: nat): (s: seq<Byte>)
    ensures |s| == n
  {
    if n == 0 then [] else [v % 256] + Little(v / 256, n - 1)
  }

  function LittleValue(s: seq<Byte>): nat {
    if s == [] then 0 else s[0] + 256 * LittleValue(s[1..])
  }

  lemma {:induction false} LittleRoundTrip(v: nat, n: nat)
    requires v < Pow256(n)
    ensures LittleValue(Little(v, n)) == v
  {
    if n > 0 { LittleRoundTrip(v / 256, n - 1); }
  }
}
