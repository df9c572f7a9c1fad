/** Five-byte overlay pointers, their addition, and byte loops over the memory behind them. */
module OverlayPtr {
  import opened Bytes
  import opened Seqs

  type Optr = s: seq<Byte> | |s| == 5 witness [0, 0, 0, 0, 0]

  /** The source takes a pointer's second byte for 2^32 and its first one for more than fits. */
  const WEIGHT1: nat := 0x1_0000_0000
  const SAFE_LIMIT: nat := 0x100_0000
  const LIMIT: nat := 0x100_0000_0000

  /** What the addition takes a pointer for, its first byte left aside. */
  function Weighed(a: Optr): nat { var a: seq<nat> := a; a[1] * WEIGHT1 + a[2] * 0x1_0000 + a[3] * 0x100 + a[4] }

  /** None: a sum that does not fit the machine's integer, the source leaves it undefined. */
  function Plus(a: Optr, n: nat): Option<Optr> {
    if a[0] != 0 then None else Some(BigEndian(Weighed(a) + n, 5))
  }

  lemma FiveBytes(a: Optr)
    ensures var s: seq<nat> := a; Value(a) == s[0] * 0x1_0000_0000 + s[1] * 0x100_0000 + s[2] * 0x1_0000 + s[3] * 0x100 + s[4]
  {
    var b, c, d, e := a[1..], a[2..], a[3..], a[4..];
    assert b[1..] == c && c[1..] == d && d[1..] == e && e[1..] == [];
    assert Pow256(1) == 256 && Pow256(2) == 0x1_0000 && Pow256(3) == 0x100_0000 && Pow256(4) == 0x1_0000_0000;
    assert Value(e) == a[4];
    assert Value(d) == a[3] * 0x100 + Value(e);
    assert Value(c) == a[2] * 0x1_0000 + Value(d);
    assert Value(b) == a[1] * 0x100_0000 + Value(c);
  }

  /** The lowest n bytes keep the number without its multiples of 256^n. */
  lemma {:induction false} LowBytes(v: nat, n: nat)
    ensures Value(BigEndian(v, n)) == v % Pow256(n)
  {
    if n > 0 {
      LowBytes(v / 256, n - 1);
      ValueSnoc(BigEndian(v / 256, n - 1), v % 256);
      ModStep(v, Pow256(n - 1));
    }
  }

  lemma ModStep(v: nat, p: nat)
    requires p > 0
    ensures 256 * ((v / 256) % p) + v % 256 == v % (256 * p)
  {
    var q, r := v / 256, v % 256;
    var q1, r1 := q / p, q % p;
    assert v == 256 * q + r && q == q1 * p + r1;
    assert v == q1 * (256 * p) + (256 * r1 + r) by { assert 256 * (q1 * p) == q1 * (256 * p); }
    DivUnique(v, 256 * p, q1, 256 * r1 + r);
    assert v == (v / (256 * p)) * (256 * p) + v % (256 * p);
  }

  lemma PlusValue(a: Optr, n: nat)
    requires a[0] == 0
    ensures Value(Plus(a, n).value) == (Weighed(a) + n) % LIMIT
  {
    assert Pow256(5) == LIMIT;
    LowBytes(Weighed(a) + n, 5);
  }

  /** Adding to a pointer is exact just below 2^24, as long as the sum has five bytes. */
  lemma PlusExact(a: Optr, n: nat)
    ensures (Plus(a, n).Some? && Value(Plus(a, n).value) == Value(a) + n) <==> Value(a) < SAFE_LIMIT && Value(a) + n < LIMIT
  {
    FiveBytes(a);
    if a[0] == 0 {
      PlusValue(a, n);
      var w := Weighed(a) + n;
      var top: nat := a[1];
      assert w == Value(a) + n + top * 0xff00_0000;
      assert Value(a) < SAFE_LIMIT <==> a[1] == 0;
      if a[1] > 0 && w % LIMIT == Value(a) + n {
        assert w == (w / LIMIT) * LIMIT + w % LIMIT;
        NoMultiple(top, w / LIMIT);
        assert false;
      }
    }
  }

  /** 255 b 2^24 is not a multiple of 2^40. */
  lemma NoMultiple(b: nat, q: nat)
    requires 0 < b < 256
    ensures b * 0xff00_0000 != q * LIMIT
  {
    assert 0 < b * 0xff00_0000 < LIMIT;
  }

  function PlusTwice(a: Optr, m: nat, n: nat): Option<Optr> {
    match Plus(a, m)
    case None => None
    case Some(b) => Plus(b, n)
  }

  /** Below 2^24 two additions are one, exactly while the first sum stays below 2^24 too. */
  lemma PlusAssociative(a: Optr, m: nat, n: nat)
    requires Value(a) < SAFE_LIMIT && Value(a) + m + n < LIMIT
    ensures PlusTwice(a, m, n) == Plus(a, m + n) <==> Value(a) + m < SAFE_LIMIT
  {
    PlusExact(a, m);
    PlusExact(a, m + n);
    var b := Plus(a, m).value;
    PlusExact(b, n);
    var both := Plus(a, m + n).value;
    if Plus(b, n).Some? && Value(Plus(b, n).value) == Value(both) { ValueInjective(Plus(b, n).value, both); }
  }

  /** The address of a number: what does not fit five bytes is cut off. */
  method SetAddr(ulong: nat) returns (a: Optr)
    ensures a == BigEndian(ulong, 5)
    ensures ulong < LIMIT ==> Value(a) == ulong
  {
    a := [ulong / 0x1_0000_0000 % 256, ulong / 0x100_0000 % 256, ulong / 0x1_0000 % 256, ulong / 0x100 % 256, ulong % 256];
    assert Pow256(5) == LIMIT;
    if ulong < LIMIT { ValueOfBigEndian(ulong, 5); }
    FiveDigits(ulong);
  }

  lemma FiveDigits(v: nat)
    ensures BigEndian(v, 5) == [v / 0x1_0000_0000 % 256, v / 0x100_0000 % 256, v / 0x1_0000 % 256, v / 0x100 % 256, v % 256]
  {
    var a := v / 256;
    var b := a / 256;
    var c := b / 256;
    var d := c / 256;
    assert b == v / 0x1_0000 && c == v / 0x100_0000 && d == v / 0x1_0000_0000;
    assert BigEndian(d, 1) == BigEndian(d / 256, 0) + [d % 256];
    assert BigEndian(c, 2) == BigEndian(d, 1) + [c % 256];
    assert BigEndian(b, 3) == BigEndian(c, 2) + [b % 256];
    assert BigEndian(a, 4) == BigEndian(b, 3) + [a % 256];
  }

  /** The page of a pointer, None where the source's sum does not fit. */
  function Frame(a: Optr): Option<nat> { if a[0] != 0 then None else (var a: seq<nat> := a; Some(a[1] * 0x100 + a[2])) }

  function Offset(a: Optr): nat { var a: seq<nat> := a; a[3] * 0x100 + a[4] }

  /** Frame and place within it are the pointer. */
  lemma FrameAndOffset(a: Optr)
    ensures Offset(a) < 0x1_0000
    ensures Frame(a).Some? <==> Value(a) < 0x1_0000_0000
    ensures Frame(a).Some? ==> Frame(a).value * 0x1_0000 + Offset(a) == Value(a)
  {
    FiveBytes(a);
  }

  // ---------------------------------------------------------------- memory

  /** Memory with the bytes written at one place. */
  function Patched(b: seq<Byte>, at: nat, src: seq<Byte>): (r: seq<Byte>)
    requires at + |src| <= |b|
    ensures |r| == |b|
  {
    b[..at] + src + b[at + |src|..]
  }

  /** So many bytes from the pointer on lie in memory, and all below 2^24. */
  predicate Spans(mem: array<Byte>, a: Optr, n: nat) { Value(a) + n <= mem.Length && Value(a) + n <= SAFE_LIMIT }

  /** Where the pointer's n-th byte is. */
  lemma Place(a: Optr, n: nat)
    requires Value(a) + n < SAFE_LIMIT
    ensures Plus(a, n).Some? && Value(Plus(a, n).value) == Value(a) + n
  {
    PlusExact(a, n);
  }

  /** Copies bytes into overlay memory, one pointer addition for each. */
  method CopyTo(mem: array<Byte>, dest: Optr, src: seq<Byte>)
    requires Spans(mem, dest, |src|)
    modifies mem
    ensures mem[..] == Patched(old(mem[..]), Value(dest), src)
  {
    var i := 0;
    var at := Value(dest);
    hide Value, Plus;
    while i < |src|
      invariant 0 <= i <= |src|
      invariant mem[..] == Patched(old(mem[..]), at, src[..i])
    {
      Place(dest, i);
      ghost var was := mem[..];
      mem[Value(Plus(dest, i).value)] := src[i];
      PatchStep(old(mem[..]), at, src, i, was, mem[..]);
      i := i + 1;
    }
    assert src[..i] == src;
  }

  lemma PatchStep(b: seq<Byte>, at: nat, src: seq<Byte>, i: nat, was: seq<Byte>, now: seq<Byte>)
    requires i < |src| && at + |src| <= |b| && was == Patched(b, at, src[..i]) && now == was[at + i := src[i]]
    ensures now == Patched(b, at, src[..i + 1])
  {
  }

  /** Copies bytes out of overlay memory. */
  method CopyFrom(mem: array<Byte>, src: Optr, n: nat) returns (r: seq<Byte>)
    requires Spans(mem, src, n)
    ensures r == mem[Value(src)..Value(src) + n]
  {
    r := [];
    var i := 0;
    var at := Value(src);
    hide Value, Plus;
    while i < n
      invariant 0 <= i <= n && r == mem[at..at + i]
    {
      Place(src, i);
      r := r + [mem[Value(Plus(src, i).value)]];
      i := i + 1;
    }
  }

  /** Compares overlay memory with bytes: 0, -1 or 1 as the numbers they spell are ordered. */
  method Ocmp(mem: array<Byte>, a: Optr, b: seq<Byte>) returns (r: int)
    requires Spans(mem, a, |b|)
    ensures var x, y := Value(mem[Value(a)..Value(a) + |b|]), Value(b);
            r == if x == y then 0 else if x < y then -1 else 1
  {
    ghost var x := mem[Value(a)..Value(a) + |b|];
    CompareIsNumeric(x, b);
    assert x[0..] == x && b[0..] == b;
    var i := 0;
    var at := Value(a);
    hide Value, Plus;
    while i < |b|
      invariant 0 <= i <= |b| == |x| && Compare(x, b) == Compare(x[i..], b[i..])
    {
      Place(a, i);
      var v := mem[Value(Plus(a, i).value)];
      assert x[i..][1..] == x[i + 1..] && b[i..][1..] == b[i + 1..];
      if v != b[i] { return if v <= b[i] then -1 else 1; }
      i := i + 1;
    }
    r := 0;
  }
}
