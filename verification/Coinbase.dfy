/** The coinbase transaction: its height and text, printed and read. */
module Coinbases {
  import opened Bytes
  import opened Scripts
  import opened Seqs
  import opened Transactions

  const NO_TX_ID: Data := [0, 0, 0, 0, 0, 0, 0, 0, 0, 0, 0, 0, 0, 0, 0, 0, 0, 0, 0, 0, 0, 0, 0, 0, 0, 0, 0, 0, 0, 0, 0, 0]
  const NO_INDEX: Word := [255, 255, 255, 255]
  const NO_SEQUENCE: Word := [0, 0, 0, 0]

  /** The hash that the output is locked to on printing is kept beside the output. */
  datatype Coinbase = Coinbase(version: Word, prevOut: PrevOut, script: Script, sequence: Word, out: TxOut, pubKeyHash: Option<Data>)

  /** A text is kept when, after four bytes are taken off, at most a hundred remain. */
  predicate TextFits(text: Data) { 4 <= |text| <= 104 }

  /** The height, and the text when it fits. */
  function CoinbaseScript(height: nat, text: Data): Script {
    [Push(4, BigEndian(height, 4))] + if TextFits(text) then [Push(|text|, text)] else []
  }

  function Mint(version: Word, height: nat, text: Data, value: Long, hash: Data): Coinbase {
    Coinbase(version, PrevOut(NO_TX_ID, NO_INDEX), CoinbaseScript(height, text), NO_SEQUENCE, TxOut(value, None), Some(hash))
  }

  function Signed32(n: nat): int { if n < 0x8000_0000 then n else n - 0x1_0000_0000 }

  /** The height that a script tells; -1 when there is none, None where the source would read past the data. */
  function HeightOf(s: Script): Option<int> {
    if s == [] || !s[0].Push? || s[0].data == [] then Some(-1)
    else if |s[0].data| < 4 then None
    else Some(Signed32(Value(s[0].data[..4])))
  }

  // ---------------------------------------------------------------- printing and reading

  /** None: the source stops, it has no hash to lock the output to. */
  function PrintCoinbase(b: Coinbase): Option<Data> {
    if b.pubKeyHash.None? then None
    else
      Some(b.version + BigEndian(1, 4) + Framed(b.prevOut, Print(b.script), b.sequence) + BigEndian(1, 4)
           + ExportOut(b.out.(pubKeyHash := b.pubKeyHash)))
  }

  datatype CoinbaseIn = CoinbaseIn(prevOut: PrevOut, script: Script, sequence: Word)

  function ParseCoinbaseIn(b: Data): Read<CoinbaseIn> {
    if |b| < 40 then None
    else
      var n := Value(b[36..40]) % 0x1_0000;
      if |b| < 44 + n then None
      else
        match Parse(b[40..40 + n])
        case None => None
        case Some(s) => Some((CoinbaseIn(ParsePrevOut(b).value.0, s, b[40 + n..44 + n]), 44 + n))
  }

  /** Reading into a new coinbase. */
  function ParseCoinbase(b: Data): Read<Coinbase> {
    if |b| < 8 then None
    else
      match ParseCoinbaseIn(b[8..])
      case None => None
      case Some((i, n)) =>
        if |b| < 12 + n then None
        else
          match ParseOut(b[12 + n..])
          case None => None
          case Some((o, m)) => Some((Coinbase(b[..4], i.prevOut, i.script, i.sequence, o, None), 12 + n + m))
  }

  ghost predicate PrintableCoinbase(b: Coinbase) {
    && |b.prevOut.txID| == TX_ID && Sized(b.script) && Plain(b.script) && |Print(b.script)| < 0x1_0000
    && b.pubKeyHash.Some? && |b.pubKeyHash.value| == DIGEST
  }

  /** Reading finds the output's hash, but nothing to lock the output to on printing. */
  function ReadCoinbase(b: Coinbase): Coinbase { b.(out := b.out.(pubKeyHash := b.pubKeyHash), pubKeyHash := None) }

  lemma CoinbaseInReads(p: PrevOut, s: Script, sequence: Word, rest: Data)
    requires |p.txID| == TX_ID && Sized(s) && Plain(s) && |Print(s)| < 0x1_0000
    ensures ParseCoinbaseIn(Framed(p, Print(s), sequence) + rest)
         == Some((CoinbaseIn(p, s, sequence), |Framed(p, Print(s), sequence)|))
  {
    var body := Print(s);
    hide *;
    RoundTrip(s);
    Four(|body|);
    FramedParts(p, body, sequence, rest);
    FramedSize(p, body, sequence);
    ParseCoinbaseInIs(Framed(p, body, sequence) + rest, |body|, s);
  }

  lemma FramedSize(p: PrevOut, body: Data, sequence: Word)
    requires |p.txID| == TX_ID
    ensures |Framed(p, body, sequence)| == 44 + |body|
  {
  }

  lemma ParseCoinbaseInIs(b: Data, n: nat, s: Script)
    requires |b| >= 44 + n && Value(b[36..40]) == n < 0x1_0000 && Parse(b[40..40 + n]) == Some(s)
    ensures ParseCoinbaseIn(b) == Some((CoinbaseIn(PrevOut(b[..32], b[32..36]), s, b[40 + n..44 + n]), 44 + n))
  {
    hide Parse, Value;
  }

  /** A printed coinbase, followed by anything, is read back and takes exactly its bytes. */
  lemma CoinbaseReads(b: Coinbase, rest: Data)
    requires PrintableCoinbase(b)
    ensures PrintCoinbase(b).Some?
    ensures ParseCoinbase(PrintCoinbase(b).value + rest) == Some((ReadCoinbase(b), |PrintCoinbase(b).value|))
  {
    var i, one, o := Framed(b.prevOut, Print(b.script), b.sequence), BigEndian(1, 4), b.out.(pubKeyHash := b.pubKeyHash);
    assert |PrintCoinbase(b).value| == 12 + |i| + |ExportOut(o)|;
    assert PrintableOut(o);
    hide *;
    CoinbaseInReads(b.prevOut, b.script, b.sequence, one + ExportOut(o) + rest);
    OutReads(o, rest);
    BodyParts(b.version, one, i, one, ExportOut(o), rest);
    assert PrintCoinbase(b).value == b.version + one + i + one + ExportOut(o) by { PrintCoinbaseIs(b); }
    ParseCoinbaseIs(PrintCoinbase(b).value + rest, CoinbaseIn(b.prevOut, b.script, b.sequence), |i|, o, |ExportOut(o)|);
    assert ReadCoinbase(b) == Coinbase(b.version, b.prevOut, b.script, b.sequence, o, None) by { ReadCoinbaseIs(b); }
  }

  lemma PrintCoinbaseIs(b: Coinbase)
    requires b.pubKeyHash.Some?
    ensures PrintCoinbase(b) == Some(b.version + BigEndian(1, 4) + Framed(b.prevOut, Print(b.script), b.sequence)
                                     + BigEndian(1, 4) + ExportOut(b.out.(pubKeyHash := b.pubKeyHash)))
  {
  }

  lemma ReadCoinbaseIs(b: Coinbase)
    ensures ReadCoinbase(b) == Coinbase(b.version, b.prevOut, b.script, b.sequence, b.out.(pubKeyHash := b.pubKeyHash), None)
  {
  }

  lemma ParseCoinbaseIs(b: Data, i: CoinbaseIn, n: nat, o: TxOut, m: nat)
    requires |b| >= 12 + n && ParseCoinbaseIn(b[8..]) == Some((i, n)) && ParseOut(b[12 + n..]) == Some((o, m))
    ensures ParseCoinbase(b) == Some((Coinbase(b[..4], i.prevOut, i.script, i.sequence, o, None), 12 + n + m))
  {
    hide ParseCoinbaseIn, ParseOut;
  }

  /** What was read can not be printed again. */
  lemma ReadIsNotPrintable(b: Coinbase)
    ensures PrintCoinbase(ReadCoinbase(b)) == None
  {
  }

  /** No height and no text can spoil the printed form. */
  lemma MintIsPrintable(version: Word, height: nat, text: Data, value: Long, hash: Data)
    requires |hash| == DIGEST
    ensures PrintableCoinbase(Mint(version, height, text, value, hash))
  {
    var s := CoinbaseScript(height, text);
    PrintSize(s);
    if TextFits(text) {
      assert s[1..][0] == s[1] && s[1..][1..] == [];
      PrintSize(s[1..]);
    } else {
      assert s[1..] == [];
    }
    PrintNone();
  }

  /** The height is told back as a signed number; the text is there exactly when it fits. */
  lemma MintTells(height: nat, text: Data)
    requires height < 0x1_0000_0000
    ensures HeightOf(CoinbaseScript(height, text)) == Some(Signed32(height))
    ensures HeightOf(CoinbaseScript(height, text)) == Some(height) <==> height < 0x8000_0000
    ensures 4 <= |text| <= 104 <==> exists i | 1 <= i < |CoinbaseScript(height, text)| :: CoinbaseScript(height, text)[i] == Push(|text|, text)
  {
    var s := CoinbaseScript(height, text);
    Four(height);
    assert s[0].data[..4] == BigEndian(height, 4);
    if TextFits(text) { assert s[1] == Push(|text|, text); }
  }

  // ---------------------------------------------------------------- the coinbase object

  /** Reads an output into an object that may already hold a script: value and hash, all items, bytes taken. */
  function ReadOut(b: Data, held: Script): Option<(TxOut, Script, nat)> {
    if |b| < 16 then None
    else
      var n := Value(b[8..16]) % 0x1_0000_0000;
      if |b| < 16 + n then None
      else
        match Parse(b[16..16 + n])
        case None => None
        case Some(s) =>
          if |held + s| < 3 || !(held + s)[2].Push? then None
          else Some((TxOut(b[..8], Some((held + s)[2].data)), held + s, 16 + n))
  }

  lemma ReadOutIsParseOut(b: Data)
    ensures ReadOut(b, []).Some? <==> ParseOut(b).Some?
    ensures ReadOut(b, []).Some? ==> ParseOut(b) == Some((ReadOut(b, []).value.0, ReadOut(b, []).value.2))
  {
    if |b| >= 16 {
      var n := Value(b[8..16]) % 0x1_0000_0000;
      if 16 + n <= |b| && Parse(b[16..16 + n]).Some? {
        var s := Parse(b[16..16 + n]).value;
        assert [] + s == s;
      }
    }
  }

  class CoinbaseTx {
    var version: Word
    var prevOut: PrevOut
    var script: Script
    var sequence: Word
    var value: Long
    var pkScript: Script
    var outHash: Option<Data>
    var pubKeyHash: Option<Data>

    constructor ()
      ensures IsNew()
    {
      prevOut, script, pkScript, outHash, pubKeyHash := PrevOut(NO_TX_ID, NO_INDEX), [], [], None, None;
    }

    constructor FromHeight(version: Word, height: nat, text: Data, value: Long, hash: Data)
      requires |text| < 0x1_0000_0000
      ensures View() == Mint(version, height, text, value, hash)
    {
      this.version, prevOut, sequence := version, PrevOut(NO_TX_ID, NO_INDEX), NO_SEQUENCE;
      this.value, pkScript, outHash, pubKeyHash := value, [], None, Some(hash);
      var items := [Push(4, BigEndian(height, 4))];
      if (|text| - 4) % 0x1_0000_0000_0000_0000 <= 100 { items := items + [Push(|text| % 256, text)]; }
      script := items;
    }

    /** Nothing was put into it yet. */
    ghost predicate IsNew()
      reads this
    {
      script == [] && pkScript == [] && pubKeyHash == None
    }

    function View(): Coinbase
      reads this
    {
      Coinbase(version, prevOut, script, sequence, TxOut(value, outHash), pubKeyHash)
    }

    method ExportRaw() returns (raw: Option<Data>)
      modifies this
      ensures raw == PrintCoinbase(old(View()))
      ensures raw.Some? ==> View() == old(View()).(out := TxOut(old(value), old(pubKeyHash))) && pkScript == PkScript(pubKeyHash.value)
    {
      if pubKeyHash.None? { return None; }
      outHash, pkScript := pubKeyHash, PkScript(pubKeyHash.value);
      var body := Print(script);
      var rawOut := ExportOut(TxOut(value, outHash));
      var front := version + BigEndian(1, 4);
      raw := Some(front + (PrintPrevOut(prevOut) + BigEndian(|body|, 4) + body + sequence) + BigEndian(1, 4) + rawOut);
    }

    /** Scripts are added to; the output's hash is the third item of what is then there. */
    method ImportRawSequentially(raw: Data) returns (size: Option<nat>)
      modifies this
      ensures size.Some? <==> ParseInto(raw, old(script), old(pkScript)).Some?
      ensures size.Some? ==>
                ParseInto(raw, old(script), old(pkScript)) == Some((View().(pubKeyHash := None), pkScript, size.value))
      ensures pubKeyHash == old(pubKeyHash)
    {
      hide ParseCoinbaseIn, ReadOut;
      if |raw| < 8 { return None; }
      version := raw[..4];
      var b := raw[8..];
      var first := ParseCoinbaseIn(b);
      if first.None? { return None; }
      var (i, n) := first.value;
      prevOut, script, sequence := i.prevOut, script + i.script, i.sequence;
      if |raw| < 12 + n { return None; }
      var second := ReadOut(raw[12 + n..], pkScript);
      if second.None? { return None; }
      var (o, items, m) := second.value;
      value, outHash, pkScript := o.value, o.pubKeyHash, items;
      size := Some(12 + n + m);
    }
  }

  /** Reading into a coinbase that holds these scripts already: what it then is, the output's items, bytes taken. */
  function ParseInto(b: Data, held: Script, pkHeld: Script): Option<(Coinbase, Script, nat)> {
    if |b| < 8 then None
    else
      match ParseCoinbaseIn(b[8..])
      case None => None
      case Some((i, n)) =>
        if |b| < 12 + n then None
        else
          match ReadOut(b[12 + n..], pkHeld)
          case None => None
          case Some((o, items, m)) => Some((Coinbase(b[..4], i.prevOut, held + i.script, i.sequence, o, None), items, 12 + n + m))
  }

  /** Into a new coinbase goes just what was printed. */
  lemma IntoNew(b: Data)
    ensures ParseInto(b, [], []).Some? <==> ParseCoinbase(b).Some?
    ensures ParseInto(b, [], []).Some? ==> ParseCoinbase(b) == Some((ParseInto(b, [], []).value.0, ParseInto(b, [], []).value.2))
  {
    hide ParseCoinbaseIn, ReadOut, ParseOut;
    if |b| >= 8 && ParseCoinbaseIn(b[8..]).Some? {
      var (i, n) := ParseCoinbaseIn(b[8..]).value;
      assert [] + i.script == i.script;
      if |b| >= 12 + n { ReadOutIsParseOut(b[12 + n..]); }
    }
  }

  /** Into one that was printed before goes the hash it was printed with, whatever the bytes say. */
  lemma IntoUsed(b: Data, held: Script, hash: Data)
    requires ParseInto(b, held, PkScript(hash)).Some?
    ensures ParseInto(b, held, PkScript(hash)).value.0.out.pubKeyHash == Some(hash)
  {
    hide ParseCoinbaseIn, Parse;
  }
}
