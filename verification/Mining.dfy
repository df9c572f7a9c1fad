/** Block headers, the target that nBits stands for, and the search for a nonce. */
module Mining {
  import opened Bytes
  import opened Seqs

  type Data = seq<Byte>
  type Word32 = n: nat | n < 0x1_0000_0000

  const DIGEST_SIZE: nat := 32
  const HEADER_SIZE: nat := 80
  const EIGHT: Data := [0, 0, 0, 0, 0, 0, 0, 0]

  type Digest = s: Data | |s| == 32 witness EIGHT + EIGHT + EIGHT + EIGHT

  /** SHA-256, left open. */
  type Hash = Data -> Digest

  // ---------------------------------------------------------------- the header and its bytes

  datatype Header = Header(version: Word32, prev: Digest, merkle: Digest, time: Word32, nBits: Word32, nonce: Word32)

  /** The fields as memory holds them, the nonce last. */
  function Front(h: Header): (b: Data)
    ensures |b| == HEADER_SIZE - 4
  {
    Little(h.version, 4) + h.prev + h.merkle + Little(h.time, 4) + Little(h.nBits, 4)
  }

  function PrintHeader(h: Header): (b: Data)
    ensures |b| == HEADER_SIZE
  {
    Front(h) + Little(h.nonce, 4)
  }

  /** Four bytes of memory taken as a number. */
  function Field(b: Data, at: nat): (w: Word32)
    requires at + 4 <= |b|
  {
    FieldBound(b[at..at + 4]);
    LittleValue(b[at..at + 4])
  }

  lemma FieldBound(b: Data)
    requires |b| == 4
    ensures LittleValue(b) < 0x1_0000_0000
  {
    var c := b[1..];
    var d := c[1..];
    var e := d[1..];
    assert LittleValue(b) == b[0] + 256 * LittleValue(c) && LittleValue(c) == c[0] + 256 * LittleValue(d);
    assert LittleValue(d) == d[0] + 256 * LittleValue(e) && LittleValue(e) == e[0] + 256 * LittleValue([]) by { assert e[1..] == []; }
  }

  /** None: the source would read past the end. */
  function ParseHeader(b: Data): Option<Header> {
    if |b| < HEADER_SIZE then None
    else Some(Header(Field(b, 0), b[4..36], b[36..68], Field(b, 68), Field(b, 72), Field(b, 76)))
  }

  lemma FieldOf(b: Data, at: nat, n: Word32)
    requires at + 4 <= |b| && b[at..at + 4] == Little(n, 4)
    ensures Field(b, at) == n
  {
    assert Pow256(4) == 0x1_0000_0000;
    LittleRoundTrip(n, 4);
  }

  lemma Pieces(a: Data, b: Data, c: Data, d: Data, e: Data, f: Data, rest: Data)
    requires |a| == |d| == |e| == |f| == 4 && |b| == |c| == 32
    ensures var s := a + b + c + d + e + f + rest;
            && |s| == 80 + |rest| && s[0..4] == a && s[4..36] == b && s[36..68] == c && s[68..72] == d
            && s[72..76] == e && s[76..80] == f && s[80..] == rest
  {
  }

  /** A printed header, followed by anything, is read back. */
  lemma HeaderReads(h: Header, rest: Data)
    ensures ParseHeader(PrintHeader(h) + rest) == Some(h) && (PrintHeader(h) + rest)[HEADER_SIZE..] == rest
  {
    hide Little, Field;
    var s := PrintHeader(h) + rest;
    Pieces(Little(h.version, 4), h.prev, h.merkle, Little(h.time, 4), Little(h.nBits, 4), Little(h.nonce, 4), rest);
    FieldOf(s, 0, h.version);
    FieldOf(s, 68, h.time);
    FieldOf(s, 72, h.nBits);
    FieldOf(s, 76, h.nonce);
  }

  /** Where each field lies in the eighty bytes. */
  lemma HeaderLayout(h: Header)
    ensures var b := PrintHeader(h);
            && |b| == 80 && b[0..4] == Little(h.version, 4) && b[4..36] == h.prev && b[36..68] == h.merkle
            && b[68..72] == Little(h.time, 4) && b[72..76] == Little(h.nBits, 4) && b[76..80] == Little(h.nonce, 4)
  {
    Pieces(Little(h.version, 4), h.prev, h.merkle, Little(h.time, 4), Little(h.nBits, 4), Little(h.nonce, 4), []);
    assert PrintHeader(h) + [] == PrintHeader(h);
  }

  // ---------------------------------------------------------------- the target

  function Exponent(nBits: Word32): nat { nBits / 0x100_0000 }

  function Coefficient(nBits: Word32): nat { nBits % 0x100_0000 }

  /** Outside these exponents the source would write past its mask. */
  predicate InRange(nBits: Word32) { 3 <= Exponent(nBits) <= DIGEST_SIZE }

  /** What a block hash must not exceed. */
  function Target(nBits: Word32): nat
    requires InRange(nBits)
  {
    Coefficient(nBits) * Pow256(Exponent(nBits) - 3)
  }

  /** Work is shown: the hash of the header, as a number, is within the target. */
  predicate Proven(hash: Hash, h: Header) {
    InRange(h.nBits) && Value(hash(PrintHeader(h))) <= Target(h.nBits)
  }

  /** Zeros in front change nothing; zeros behind multiply. */
  lemma {:induction false} LeadingZeros(s: Data, n: nat)
    requires n <= |s| && forall i | 0 <= i < n :: s[i] == 0
    ensures Value(s) == Value(s[n..])
  {
    if n > 0 {
      LeadingZeros(s[1..], n - 1);
      assert s[1..][n - 1..] == s[n..];
    } else {
      assert s[0..] == s;
    }
  }

  lemma {:induction false} TrailingZeros(s: Data, n: nat)
    requires n <= |s| && forall i | n <= i < |s| :: s[i] == 0
    ensures Value(s) == Value(s[..n]) * Pow256(|s| - n)
    decreases |s|
  {
    if n < |s| {
      var t := s[..|s| - 1];
      TrailingZeros(t, n);
      assert s == t + [0] && t[..n] == s[..n];
      ValueSnoc(t, 0);
      Times256(Value(s[..n]), Pow256(|t| - n));
    } else {
      assert s[..n] == s;
    }
  }

  lemma ThreeBytes(a: Byte, b: Byte, c: Byte)
    ensures Value([a, b, c]) == a * 0x1_0000 + b * 0x100 + c
  {
    assert [a, b, c][1..] == [b, c] && [b, c][1..] == [c] && [c][1..] == [];
    assert Value([c]) == c && Value([b, c]) == b * 256 + c;
    assert Pow256(2) == 0x1_0000;
  }

  /** Three bytes at `at`, zeros elsewhere. */
  lemma MaskValue(s: Data, at: nat)
    requires at + 3 <= |s| && forall i | 0 <= i < |s| && !(at <= i < at + 3) :: s[i] == 0
    ensures Value(s) == (s[at] * 0x1_0000 + s[at + 1] * 0x100 + s[at + 2]) * Pow256(|s| - at - 3)
  {
    TrailingZeros(s, at + 3);
    LeadingZeros(s[..at + 3], at);
    assert s[..at + 3][at..] == [s[at], s[at + 1], s[at + 2]];
    ThreeBytes(s[at], s[at + 1], s[at + 2]);
  }

  /** The mask of 32 bytes that nBits spells; None where the source would write outside of it. */
  method GeneratenBitMask(nBits: Word32) returns (mask: Option<Digest>)
    ensures mask.Some? <==> InRange(nBits)
    ensures mask.Some? <==> 3 <= nBits / 0x100_0000 <= 32
    ensures mask.Some? ==> Value(mask.value) == Target(nBits)
    ensures mask.Some? ==> Value(mask.value) == nBits % 0x100_0000 * Pow256(nBits / 0x100_0000 - 3)
  {
    var uc := BigEndian(nBits, 4);
    TopByte(nBits);
    var exponent := uc[0];
    if exponent < 3 || 31 < exponent - 3 + 2 { return None; }
    var shift := exponent - 3;
    var bytes := new Byte[32](_ => 0);
    bytes[31 - (shift + 2)] := uc[1];
    bytes[31 - (shift + 1)] := uc[2];
    bytes[31 - shift] := uc[3];
    MaskValue(bytes[..], 29 - shift);
    mask := Some(bytes[..]);
  }

  lemma TopByte(nBits: Word32)
    ensures var uc: seq<nat> := BigEndian(nBits, 4);
            uc[0] == Exponent(nBits) && uc[1] * 0x1_0000 + uc[2] * 0x100 + uc[3] == Coefficient(nBits)
  {
    var a := nBits / 256;
    var b := a / 256;
    var c := b / 256;
    assert BigEndian(c, 1) == BigEndian(c / 256, 0) + [c % 256];
    assert BigEndian(b, 2) == BigEndian(c, 1) + [b % 256];
    assert BigEndian(a, 3) == BigEndian(b, 2) + [a % 256];
    assert BigEndian(nBits, 4) == BigEndian(a, 3) + [nBits % 256];
  }

  /** Byte by byte from the top: the hash is, as a number, at most the mask. */
  method Mbitcmp(mask: Digest, hash: Digest) returns (within: bool)
    ensures within <==> Value(hash) <= Value(mask)
  {
    CompareIsNumeric(hash, mask);
    assert hash[0..] == hash && mask[0..] == mask;
    for i := 0 to 32
      invariant Compare(hash, mask) == Compare(hash[i..], mask[i..])
    {
      assert hash[i..][1..] == hash[i + 1..] && mask[i..][1..] == mask[i + 1..];
      if mask[i] < hash[i] { return false; }
      if mask[i] > hash[i] { return true; }
    }
    within := true;
  }

  // ---------------------------------------------------------------- the header object

  class BlockHeader {
    var version: Word32
    var prev: Digest
    var merkle: Digest
    var time: Word32
    var nBits: Word32
    var nonce: Word32

    constructor (now: Word32)
      ensures View() == Header(0, EIGHT + EIGHT + EIGHT + EIGHT, merkle, now, 0, 0)
    {
      version, prev, time, nBits, nonce := 0, EIGHT + EIGHT + EIGHT + EIGHT, now, 0, 0;
      merkle := *;
    }

    function View(): Header
      reads this
    {
      Header(version, prev, merkle, time, nBits, nonce)
    }

    method SetNBits(target: Word32)
      modifies this`nBits
      ensures nBits == target
    {
      nBits := target;
    }

    method SetNonce(target: Word32)
      modifies this`nonce
      ensures nonce == target
    {
      nonce := target;
    }

    method ExportRaw() returns (raw: array<Byte>)
      ensures fresh(raw) && raw[..] == PrintHeader(View())
    {
      var b := PrintHeader(View());
      raw := new Byte[HEADER_SIZE](i requires 0 <= i < HEADER_SIZE => b[i]);
    }

    method ImportRawSequentially(raw: Data) returns (ok: bool)
      modifies this
      ensures ok <==> ParseHeader(raw).Some?
      ensures if ok then View() == ParseHeader(raw).value else View() == old(View())
    {
      if |raw| < HEADER_SIZE { return false; }
      version, prev, merkle := Field(raw, 0), raw[4..36], raw[36..68];
      time, nBits, nonce := Field(raw, 68), Field(raw, 72), Field(raw, 76);
      ok := true;
    }

    /** None where nBits has no mask. */
    method Verify(hash: Hash) returns (valid: Option<bool>)
      ensures valid.Some? <==> InRange(nBits)
      ensures valid == Some(true) <==> Proven(hash, View())
    {
      var raw := ExportRaw();
      var mask := GeneratenBitMask(nBits);
      if mask.None? { return None; }
      var within := Mbitcmp(mask.value, hash(raw[..]));
      valid := Some(within);
    }
  }

  /** The four bytes at the end of the buffer are overwritten. */
  method PlaceNonce(raw: array<Byte>, nonce: Word32, ghost h: Header)
    requires raw.Length == HEADER_SIZE && raw[..76] == Front(h)
    modifies raw
    ensures raw[..] == PrintHeader(h.(nonce := nonce))
    ensures raw[..76] == Front(h)
  {
    var b := Little(nonce, 4);
    raw[76], raw[77], raw[78], raw[79] := b[0], b[1], b[2], b[3];
    assert raw[76..] == b;
    assert raw[..] == raw[..76] + raw[76..];
  }

  /**
    Tries the nonces from zero upward. None: the source does not come to an end, or has no mask.
    Whoever puts the returned nonce into the header has a header that verifies.
  */
  method SimpleMining(hash: Hash, header: BlockHeader, bits: Word32) returns (nonce: Option<Word32>)
    modifies header`nBits
    ensures header.View() == old(header.View()).(nBits := bits)
    ensures nonce.None? <==> forall n: Word32 :: !Proven(hash, header.View().(nonce := n))
    ensures nonce.Some? ==> Proven(hash, header.View().(nonce := nonce.value))
    ensures nonce.Some? ==> forall n | 0 <= n < nonce.value :: !Proven(hash, header.View().(nonce := n))
  {
    header.SetNBits(bits);
    var raw := header.ExportRaw();
    ghost var h := header.View();
    var mask := GeneratenBitMask(bits);
    if mask.None? { return None; }
    var candidate: Word32 := 0;
    assert raw[..76] == raw[..][..76] == Front(h);
    PlaceNonce(raw, candidate, h);
    while true
      invariant fresh(raw) && raw.Length == HEADER_SIZE && header.View() == h
      invariant raw[..76] == Front(h) && raw[..] == PrintHeader(h.(nonce := candidate))
      invariant forall n | 0 <= n < candidate :: !Proven(hash, h.(nonce := n))
      decreases 0x1_0000_0000 - candidate
    {
      var within := Mbitcmp(mask.value, hash(raw[..]));
      if within { return Some(candidate); }
      assert !Proven(hash, h.(nonce := candidate));
      if candidate == 0xffff_ffff { return None; }
      candidate := candidate + 1;
      PlaceNonce(raw, candidate, h);
    }
  }

  /** A miner's whole work: search, put the nonce into the header, verify. */
  method MineAndVerify(hash: Hash, header: BlockHeader, bits: Word32) returns (valid: Option<bool>)
    modifies header
    ensures valid == Some(true) <==> exists n: Word32 :: Proven(hash, old(header.View()).(nBits := bits, nonce := n))
  {
    var nonce := SimpleMining(hash, header, bits);
    if nonce.None? { return Some(false); }
    header.SetNonce(nonce.value);
    valid := header.Verify(hash);
    assert header.View() == old(header.View()).(nBits := bits, nonce := nonce.value);
  }
}
