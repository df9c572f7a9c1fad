/** P2PKH transactions: the three printed forms of an input, signing, printing and reading. */
module Transactions {
  import opened Bytes
  import opened Scripts
  import opened Seqs

  /** Fields that are copied byte for byte, in whatever order the machine keeps them. */
  type Word = s: Data | |s| == 4 witness [0, 0, 0, 0]
  type Long = s: Data | |s| == 8 witness [0, 0, 0, 0, 0, 0, 0, 0]

  const TX_ID: nat := 32

  datatype PrevOut = PrevOut(txID: Data, index: Word)

  /** The key to sign with, and apart from it the key of the unlocking script. */
  datatype TxIn<K> = TxIn(prevOut: PrevOut, key: Option<K>, scriptKey: Option<K>, sign: Data, isSigned: bool, script: Script, sequence: Word)

  datatype TxOut = TxOut(value: Long, pubKeyHash: Option<Data>)

  datatype Tx<K> = Tx(version: Word, ins: seq<TxIn<K>>, outs: seq<TxOut>)

  // ---------------------------------------------------------------- printing

  function PrintPrevOut(p: PrevOut): Data { p.txID + p.index }

  /** Without any script. */
  function ExportEmpty<K>(i: TxIn<K>): Data { PrintPrevOut(i.prevOut) + i.sequence }

  function Framed(p: PrevOut, body: Data, sequence: Word): Data { PrintPrevOut(p) + BigEndian(|body|, 4) + body + sequence }

  /** The unlocking script's key; where it has none it takes the input's. */
  function UsedKey<K>(i: TxIn<K>): Option<K> { if i.scriptKey.Some? then i.scriptKey else i.key }

  function KeyHash<K>(c: Crypto<K>, i: TxIn<K>): Data {
    if UsedKey(i).Some? then c.sha1(c.rawPubKey(UsedKey(i).value)) else []
  }

  /** What hashing leaves of an input: its script has a key now, and is cleared if so. */
  function Hashed<K>(i: TxIn<K>): TxIn<K> {
    if UsedKey(i).Some? then i.(scriptKey := UsedKey(i), script := []) else i
  }

  /** What printing leaves of an input: its script is made anew. */
  function Printed<K>(c: Crypto<K>, i: TxIn<K>): TxIn<K> {
    if i.scriptKey.Some? then i.(script := SignatureScript(i.sign, c.rawPubKey(i.scriptKey.value))) else i
  }

  /** With the hash of the input's own key in place of the script. */
  function ExportWithPubKeyHash<K>(c: Crypto<K>, i: TxIn<K>): Data { Framed(i.prevOut, KeyHash(c, i), i.sequence) }

  /** With the unlocking script; nothing as long as the input is not signed. */
  function ExportWithSignature<K>(c: Crypto<K>, i: TxIn<K>): Data {
    if !i.isSigned then []
    else Framed(i.prevOut, if i.scriptKey.Some? then Print(SignatureScript(i.sign, c.rawPubKey(i.scriptKey.value))) else [], i.sequence)
  }

  function ExportOut(o: TxOut): Data {
    if o.pubKeyHash.None? then []
    else
      var script := Print(PkScript(o.pubKeyHash.value));
      o.value + BigEndian(|script|, 8) + script
  }

  function ExportOuts(outs: seq<TxOut>): Data { if outs == [] then [] else ExportOut(outs[0]) + ExportOuts(outs[1..]) }

  /** The inputs as they are hashed for input `at`: that one with its key hash, the others empty. */
  function HashedIns<K>(c: Crypto<K>, ins: seq<TxIn<K>>, at: int): Data {
    if ins == [] then []
    else (if at == 0 then ExportWithPubKeyHash(c, ins[0]) else ExportEmpty(ins[0])) + HashedIns(c, ins[1..], at - 1)
  }

  function SignedIns<K>(c: Crypto<K>, ins: seq<TxIn<K>>): Data {
    if ins == [] then [] else ExportWithSignature(c, ins[0]) + SignedIns(c, ins[1..])
  }

  function Body<K>(t: Tx<K>, ins: Data): Data {
    t.version + BigEndian(|t.ins|, 4) + ins + BigEndian(|t.outs|, 4) + ExportOuts(t.outs)
  }

  /** The bytes that are signed for input `at`. */
  function TxHash<K>(c: Crypto<K>, t: Tx<K>, at: nat): Data { Body(t, HashedIns(c, t.ins, at)) }

  function Export<K>(c: Crypto<K>, t: Tx<K>): Data {
    if exists i :: 0 <= i < |t.ins| && !t.ins[i].isSigned then [] else Body(t, SignedIns(c, t.ins))
  }

  // ---------------------------------------------------------------- reading

  /** What was read, and how many bytes it took. None: the source would read past the end. */
  type Read<T> = Option<(T, nat)>

  function ParsePrevOut(b: Data): Read<PrevOut> {
    if |b| < TX_ID + 4 then None else Some((PrevOut(b[..TX_ID], b[TX_ID..TX_ID + 4]), TX_ID + 4))
  }

  /** The unlocking script gives signature and key; the input counts as not signed. */
  function ParseIn<K>(c: Crypto<K>, b: Data): Read<TxIn<K>> {
    if |b| < 40 then None
    else
      var n := Value(b[36..40]);
      if n <= DIGEST || |b| < 44 + n then None
      else
        match Parse(b[40..40 + n])
        case None => None
        case Some(s) =>
          if |s| < 2 || !s[1].Push? then None
          else
            var key := c.toPkey(s[1].data);
            Some((TxIn(ParsePrevOut(b).value.0, Some(key), Some(key), if s[0].Push? then s[0].data else [], false, s, b[40 + n..44 + n]), 44 + n))
  }

  function ParseOut(b: Data): Read<TxOut> {
    if |b| < 16 then None
    else
      var n := Value(b[8..16]) % 0x1_0000_0000;
      if |b| < 16 + n then None
      else
        match Parse(b[16..16 + n])
        case None => None
        case Some(s) => if |s| < 3 || !s[2].Push? then None else Some((TxOut(b[..8], Some(s[2].data)), 16 + n))
  }

  function ParseIns<K>(c: Crypto<K>, b: Data, count: nat): Read<seq<TxIn<K>>> {
    if count == 0 then Some(([], 0))
    else
      match ParseIn(c, b)
      case None => None
      case Some((i, n)) =>
        if |b| < n then None
        else
          match ParseIns(c, b[n..], count - 1)
          case None => None
          case Some((rest, m)) => Some(([i] + rest, n + m))
  }

  function ParseOuts(b: Data, count: nat): Read<seq<TxOut>> {
    if count == 0 then Some(([], 0))
    else
      match ParseOut(b)
      case None => None
      case Some((o, n)) =>
        if |b| < n then None
        else
          match ParseOuts(b[n..], count - 1)
          case None => None
          case Some((rest, m)) => Some(([o] + rest, n + m))
  }

  function ParseTx<K>(c: Crypto<K>, b: Data): Read<Tx<K>> {
    if |b| < 8 then None
    else
      match ParseIns(c, b[8..], Value(b[4..8]))
      case None => None
      case Some((ins, n)) =>
        if |b| < 12 + n then None
        else
          match ParseOuts(b[12 + n..], Value(b[8 + n..12 + n]))
          case None => None
          case Some((outs, m)) => Some((Tx(b[..4], ins, outs), 12 + n + m))
  }

  // ---------------------------------------------------------------- what the codec relies on

  /** A data length that survives: it fits a byte and is no operation code. */
  predicate GoodLength(n: nat) { n < 256 && !IsOpCode(n) }

  /** Key coding, hashing and signing do what they are for. */
  ghost predicate Sound<K(!new)>(c: Crypto<K>) {
    && (forall k :: c.rawPubKey(c.toPkey(c.rawPubKey(k))) == c.rawPubKey(k))
    && (forall k, m :: c.verify(c.sign(m, k), m, c.toPkey(c.rawPubKey(k))))
    && (forall b :: |c.sha1(b)| == DIGEST)
  }

  /** An input whose printed form can be read back. */
  ghost predicate Printable<K>(c: Crypto<K>, i: TxIn<K>) {
    && |i.prevOut.txID| == TX_ID && i.isSigned && i.scriptKey.Some?
    && GoodLength(|i.sign|) && GoodLength(|c.rawPubKey(i.scriptKey.value)|)
    && 2 + |i.sign| + |c.rawPubKey(i.scriptKey.value)| > DIGEST
  }

  ghost predicate PrintableOut(o: TxOut) { o.pubKeyHash.Some? && |o.pubKeyHash.value| == DIGEST }

  ghost predicate PrintableTx<K>(c: Crypto<K>, t: Tx<K>) {
    && |t.ins| < 0x1_0000_0000 && |t.outs| < 0x1_0000_0000
    && (forall i | 0 <= i < |t.ins| :: Printable(c, t.ins[i]))
    && (forall i | 0 <= i < |t.outs| :: PrintableOut(t.outs[i]))
  }

  /** What is left of an input after printing and reading: the public half of the key, unsigned. */
  ghost function ReadIn<K>(c: Crypto<K>, i: TxIn<K>): TxIn<K> {
    if i.scriptKey.None? then i
    else
      var raw := c.rawPubKey(i.scriptKey.value);
      TxIn(i.prevOut, Some(c.toPkey(raw)), Some(c.toPkey(raw)), i.sign, false, SignatureScript(i.sign, raw), i.sequence)
  }

  ghost function ReadIns<K>(c: Crypto<K>, ins: seq<TxIn<K>>): (r: seq<TxIn<K>>)
    ensures |r| == |ins| && forall i | 0 <= i < |ins| :: r[i] == ReadIn(c, ins[i])
  {
    if ins == [] then [] else [ReadIn(c, ins[0])] + ReadIns(c, ins[1..])
  }

  ghost function ReadTx<K>(c: Crypto<K>, t: Tx<K>): Tx<K> { Tx(t.version, ReadIns(c, t.ins), t.outs) }

  lemma Four(n: nat)
    requires n < 0x1_0000_0000
    ensures Value(BigEndian(n, 4)) == n
  {
    assert Pow256(4) == 0x1_0000_0000;
    ValueOfBigEndian(n, 4);
  }

  lemma Eight(n: nat)
    requires n < 0x1_0000_0000
    ensures Value(BigEndian(n, 8)) == n
  {
    assert Pow256(8) == 0x1_0000_0000_0000_0000;
    ValueOfBigEndian(n, 8);
  }

  /** The two pushes of an unlocking script, printed and read. */
  lemma SignatureScriptReads(sig: Data, key: Data)
    requires GoodLength(|sig|) && GoodLength(|key|)
    ensures Parse(Print(SignatureScript(sig, key))) == Some(SignatureScript(sig, key))
    ensures SignatureScript(sig, key) == [Push(|sig|, sig), Push(|key|, key)]
    ensures |Print(SignatureScript(sig, key))| == 2 + |sig| + |key|
  {
    var s := SignatureScript(sig, key);
    assert sig[..|sig|] == sig && key[..|key|] == key;
    assert s == [Push(|sig|, sig), Push(|key|, key)];
    hide Print, Parse;
    RoundTrip(s);
    PrintSize(s);
    PrintSize(s[1..]);
    assert s[1..][0] == s[1] && s[1..][1..] == [];
    PrintNone();
  }

  lemma PrintNone()
    ensures Print([]) == []
  {
  }

  lemma PkScriptReads(hash: Data)
    requires |hash| == DIGEST
    ensures Parse(Print(PkScript(hash))) == Some(PkScript(hash)) && |Print(PkScript(hash))| == 25
  {
    var s := PkScript(hash);
    RoundTrip(s);
    PrintSize(s);
    PrintSize(s[1..]);
    PrintSize(s[2..]);
    PrintSize(s[3..]);
    PrintSize(s[4..]);
    assert s[1..][1..] == s[2..] && s[2..][1..] == s[3..] && s[3..][1..] == s[4..] && s[4..][1..] == [];
  }

  lemma PrintSize(s: Script)
    requires s != []
    ensures |Print(s)| == |PrintItem(s[0])| + |Print(s[1..])|
  {
  }

  /** A printed input, followed by anything, is read back and takes exactly its bytes. */
  lemma InReads<K>(c: Crypto<K>, i: TxIn<K>, rest: Data)
    requires Printable(c, i)
    ensures ParseIn(c, ExportWithSignature(c, i) + rest) == Some((ReadIn(c, i), |ExportWithSignature(c, i)|))
  {
    var raw := c.rawPubKey(i.scriptKey.value);
    SignatureScriptReads(i.sign, raw);
    var body := Print(SignatureScript(i.sign, raw));
    Four(|body|);
    FramedParts(i.prevOut, body, i.sequence, rest);
  }

  /** Where the parts of an input with a script lie. */
  lemma FramedParts(p: PrevOut, body: Data, sequence: Word, rest: Data)
    requires |p.txID| == TX_ID
    ensures var b := Framed(p, body, sequence) + rest;
            && |b| == 44 + |body| + |rest| && b[..32] == p.txID && b[32..36] == p.index && b[36..40] == BigEndian(|body|, 4)
            && b[40..40 + |body|] == body && b[40 + |body|..44 + |body|] == sequence
  {
  }

  /** The forty-one bytes of an output: value, script length in eight bytes, locking script. */
  lemma OutLayout(o: TxOut)
    requires PrintableOut(o)
    ensures ExportOut(o) == o.value + [0, 0, 0, 0, 0, 0, 0, 25] + [0x76, 0xa9, 0x14] + o.pubKeyHash.value + [0x88, 0xac]
  {
    PkScriptBytes(o.pubKeyHash.value);
    assert BigEndian(25, 8) == [0, 0, 0, 0, 0, 0, 0, 25] by { TwentyFive(); }
  }

  lemma TwentyFive()
    ensures BigEndian(25, 8) == [0, 0, 0, 0, 0, 0, 0, 25]
  {
    assert BigEndian(0, 1) == [0];
    assert BigEndian(0, 3) == [0, 0, 0];
    assert BigEndian(0, 5) == [0, 0, 0, 0, 0];
    assert BigEndian(0, 7) == [0, 0, 0, 0, 0, 0, 0];
  }

  lemma OutReads(o: TxOut, rest: Data)
    requires PrintableOut(o)
    ensures ParseOut(ExportOut(o) + rest) == Some((o, |ExportOut(o)|))
  {
    var script := Print(PkScript(o.pubKeyHash.value));
    PkScriptReads(o.pubKeyHash.value);
    Eight(|script|);
    var b := ExportOut(o) + rest;
    assert b[..8] == o.value && b[8..16] == BigEndian(|script|, 8) && b[16..16 + |script|] == script;
  }

  lemma Split(a: Data, b: Data, rest: Data)
    ensures (a + b) + rest == a + (b + rest) && (a + (b + rest))[|a|..] == b + rest
  {
  }

  lemma {:induction false} InsRead<K>(c: Crypto<K>, ins: seq<TxIn<K>>, rest: Data)
    requires forall i | 0 <= i < |ins| :: Printable(c, ins[i])
    ensures ParseIns(c, SignedIns(c, ins) + rest, |ins|) == Some((ReadIns(c, ins), |SignedIns(c, ins)|))
  {
    hide Printable, ParseIn, ReadIn, ExportWithSignature;
    if ins != [] {
      var a, b := ExportWithSignature(c, ins[0]), SignedIns(c, ins[1..]);
      InReads(c, ins[0], b + rest);
      InsRead(c, ins[1..], rest);
      Split(a, b, rest);
    }
  }

  lemma {:induction false} OutsRead(outs: seq<TxOut>, rest: Data)
    requires forall i | 0 <= i < |outs| :: PrintableOut(outs[i])
    ensures ParseOuts(ExportOuts(outs) + rest, |outs|) == Some((outs, |ExportOuts(outs)|))
  {
    hide PrintableOut, ParseOut, ExportOut;
    if outs != [] {
      var a, b := ExportOut(outs[0]), ExportOuts(outs[1..]);
      OutReads(outs[0], b + rest);
      OutsRead(outs[1..], rest);
      Split(a, b, rest);
      assert outs == [outs[0]] + outs[1..];
    }
  }

  /** A signed transaction, printed and followed by anything, is read back; it takes exactly the bytes printed. */
  lemma TxReads<K>(c: Crypto<K>, t: Tx<K>, rest: Data)
    requires PrintableTx(c, t)
    ensures ParseTx(c, Export(c, t) + rest) == Some((ReadTx(c, t), |Export(c, t)|))
  {
    hide *;
    var ins, outs, b := SignedIns(c, t.ins), ExportOuts(t.outs), Export(c, t) + rest;
    InsOfTx(c, t, rest, b, ins);
    OutsOfTx(c, t, rest, b, ins, outs);
    ParseTxIs(c, b, ReadIns(c, t.ins), |ins|, t.outs, |outs|);
    ReadTxIs(c, t);
  }

  lemma InsOfTx<K>(c: Crypto<K>, t: Tx<K>, rest: Data, b: Data, ins: Data)
    requires PrintableTx(c, t) && b == Export(c, t) + rest && ins == SignedIns(c, t.ins)
    ensures |b| >= 12 + |ins| && b[..4] == t.version && ParseIns(c, b[8..], Value(b[4..8])) == Some((ReadIns(c, t.ins), |ins|))
  {
    PrintableParts(c, t);
    hide *;
    var outs, n, m := ExportOuts(t.outs), BigEndian(|t.ins|, 4), BigEndian(|t.outs|, 4);
    ExportIs(c, t);
    Four(|t.ins|);
    InsRead(c, t.ins, m + outs + rest);
    BodyParts(t.version, n, ins, m, outs, rest);
  }

  lemma OutsOfTx<K>(c: Crypto<K>, t: Tx<K>, rest: Data, b: Data, ins: Data, outs: Data)
    requires PrintableTx(c, t) && b == Export(c, t) + rest && ins == SignedIns(c, t.ins) && outs == ExportOuts(t.outs)
    ensures |b| >= 12 + |ins| && |Export(c, t)| == 12 + |ins| + |outs|
    ensures ParseOuts(b[12 + |ins|..], Value(b[8 + |ins|..12 + |ins|])) == Some((t.outs, |outs|))
  {
    PrintableParts(c, t);
    hide *;
    var n, m := BigEndian(|t.ins|, 4), BigEndian(|t.outs|, 4);
    ExportIs(c, t);
    Four(|t.outs|);
    OutsRead(t.outs, rest);
    BodyParts(t.version, n, ins, m, outs, rest);
  }

  lemma PrintableParts<K>(c: Crypto<K>, t: Tx<K>)
    requires PrintableTx(c, t)
    ensures |t.ins| < 0x1_0000_0000 && |t.outs| < 0x1_0000_0000
    ensures (forall i | 0 <= i < |t.ins| :: Printable(c, t.ins[i])) && (forall i | 0 <= i < |t.outs| :: PrintableOut(t.outs[i]))
  {
  }

  lemma ReadTxIs<K>(c: Crypto<K>, t: Tx<K>)
    ensures ReadTx(c, t) == Tx(t.version, ReadIns(c, t.ins), t.outs)
  {
  }

  lemma ExportIs<K>(c: Crypto<K>, t: Tx<K>)
    requires PrintableTx(c, t)
    ensures Export(c, t) == t.version + BigEndian(|t.ins|, 4) + SignedIns(c, t.ins) + BigEndian(|t.outs|, 4) + ExportOuts(t.outs)
    ensures |Export(c, t)| == 12 + |SignedIns(c, t.ins)| + |ExportOuts(t.outs)|
  {
    assert forall i | 0 <= i < |t.ins| :: t.ins[i].isSigned;
  }

  lemma ParseTxIs<K>(c: Crypto<K>, b: Data, ins: seq<TxIn<K>>, n: nat, outs: seq<TxOut>, m: nat)
    requires |b| >= 12 + n && ParseIns(c, b[8..], Value(b[4..8])) == Some((ins, n))
    requires ParseOuts(b[12 + n..], Value(b[8 + n..12 + n])) == Some((outs, m))
    ensures ParseTx(c, b) == Some((Tx(b[..4], ins, outs), 12 + n + m))
  {
    hide Value, ParseIns, ParseOuts;
  }

  /** Where the parts of a transaction lie. */
  lemma BodyParts(version: Word, n: Data, ins: Data, m: Data, outs: Data, rest: Data)
    requires |n| == |m| == 4
    ensures var b := version + n + ins + m + outs + rest;
            && |b| == 12 + |ins| + |outs| + |rest| && b[..4] == version && b[4..8] == n && b[8..] == ins + (m + outs + rest)
            && b[8 + |ins|..12 + |ins|] == m && b[12 + |ins|..] == outs + rest
  {
  }
}
