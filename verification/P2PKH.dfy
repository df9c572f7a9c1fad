/** The transaction object: signing every input, printing, reading, and judging a spending. */
module P2PKHs {
  import opened Bytes
  import opened Scripts
  import opened Seqs
  import opened Transactions

  // ---------------------------------------------------------------- what a signature covers

  /** What a signature at input `at` covers of the inputs: where each comes from, its sequence, and the key hash there. */
  ghost predicate SameIns<K>(c: Crypto<K>, a: seq<TxIn<K>>, b: seq<TxIn<K>>, at: int) {
    && |a| == |b| && (forall i | 0 <= i < |a| :: a[i].prevOut == b[i].prevOut && a[i].sequence == b[i].sequence)
    && (0 <= at < |a| ==> KeyHash(c, a[at]) == KeyHash(c, b[at]))
  }

  /** And of the transaction: version, all inputs, all outputs. */
  ghost predicate SameCovered<K>(c: Crypto<K>, t: Tx<K>, u: Tx<K>, at: int) {
    t.version == u.version && SameIns(c, t.ins, u.ins, at) && t.outs == u.outs
  }

  lemma {:induction false} HashedInsAlike<K>(c: Crypto<K>, a: seq<TxIn<K>>, b: seq<TxIn<K>>, at: int)
    requires SameIns(c, a, b, at)
    ensures HashedIns(c, a, at) == HashedIns(c, b, at)
  {
    if a != [] { HashedInsAlike(c, a[1..], b[1..], at - 1); }
  }

  /** Signatures, scripts and private halves do not enter what is signed, nor do the keys of other inputs. */
  lemma TxHashAlike<K>(c: Crypto<K>, t: Tx<K>, u: Tx<K>, at: nat)
    requires SameCovered(c, t, u, at)
    ensures TxHash(c, t, at) == TxHash(c, u, at)
  {
    HashedInsAlike(c, t.ins, u.ins, at);
  }

  /** A transaction whose fields have the lengths that its bytes have room for, every output locked to a key hash. */
  ghost predicate Regular<K>(c: Crypto<K>, t: Tx<K>) {
    && |t.ins| < 0x1_0000_0000 && |t.outs| < 0x1_0000_0000
    && (forall i | 0 <= i < |t.ins| :: RegularIn(c, t.ins[i]))
    && (forall i | 0 <= i < |t.outs| :: PrintableOut(t.outs[i]))
  }

  /** The key hash, if there is a key, has the length of a digest. */
  ghost predicate RegularIn<K>(c: Crypto<K>, i: TxIn<K>) { |i.prevOut.txID| == TX_ID && (KeyHash(c, i) == [] || |KeyHash(c, i)| == DIGEST) }

  lemma EmptyParts(p: PrevOut, sequence: Word)
    requires |p.txID| == TX_ID
    ensures var b := PrintPrevOut(p) + sequence; |b| == 40 && b[..32] == p.txID && b[32..36] == p.index && b[36..] == sequence
  {
  }

  lemma EmptyTells<K>(a: TxIn<K>, b: TxIn<K>, r: Data, q: Data)
    requires |a.prevOut.txID| == TX_ID == |b.prevOut.txID| && ExportEmpty(a) + r == ExportEmpty(b) + q
    ensures a.prevOut == b.prevOut && a.sequence == b.sequence && r == q
  {
    EmptyParts(a.prevOut, a.sequence);
    EmptyParts(b.prevOut, b.sequence);
    SplitAt(ExportEmpty(a), r, ExportEmpty(b), q);
  }

  lemma SplitAt(a: Data, r: Data, b: Data, q: Data)
    requires |a| == |b| && a + r == b + q
    ensures a == b && r == q
  {
    assert a == (a + r)[..|a|] && b == (b + q)[..|a|] && r == (a + r)[|a|..] && q == (b + q)[|a|..];
  }

  lemma FramedTells(p: PrevOut, x: Data, s: Word, p': PrevOut, x': Data, s': Word, r: Data, q: Data)
    requires |p.txID| == TX_ID == |p'.txID| && |x| < 0x1_0000_0000 && |x'| < 0x1_0000_0000
    requires Framed(p, x, s) + r == Framed(p', x', s') + q
    ensures p == p' && x == x' && s == s' && r == q
  {
    FramedParts(p, x, s, r);
    FramedParts(p', x', s', q);
    Four(|x|);
    Four(|x'|);
    SplitAt(Framed(p, x, s), r, Framed(p', x', s'), q);
  }

  /** The bytes of the inputs tell what they cover, and what follows them. */
  lemma {:induction false} HashedInsTell<K>(c: Crypto<K>, a: seq<TxIn<K>>, b: seq<TxIn<K>>, at: int, r: Data, q: Data)
    requires |a| == |b| && forall i | 0 <= i < |a| :: RegularIn(c, a[i]) && RegularIn(c, b[i])
    requires HashedIns(c, a, at) + r == HashedIns(c, b, at) + q
    ensures SameIns(c, a, b, at) && r == q
  {
    if a == [] {
      assert HashedIns(c, a, at) == [] == HashedIns(c, b, at);
      assert [] + r == r && [] + q == q;
    } else {
      var x, y := HashedIns(c, a[1..], at - 1), HashedIns(c, b[1..], at - 1);
      HashedHead(c, a, at, r);
      HashedHead(c, b, at, q);
      assert RegularIn(c, a[0]) && RegularIn(c, b[0]);
      hide ExportEmpty, Framed, HashedIns;
      if at == 0 {
        FramedTells(a[0].prevOut, KeyHash(c, a[0]), a[0].sequence, b[0].prevOut, KeyHash(c, b[0]), b[0].sequence, x + r, y + q);
      } else {
        EmptyTells(a[0], b[0], x + r, y + q);
      }
      HashedInsTell(c, a[1..], b[1..], at - 1, r, q);
    }
  }

  lemma HashedHead<K>(c: Crypto<K>, a: seq<TxIn<K>>, at: int, r: Data)
    requires a != []
    ensures HashedIns(c, a, at) + r
         == (if at == 0 then Framed(a[0].prevOut, KeyHash(c, a[0]), a[0].sequence) else ExportEmpty(a[0])) + (HashedIns(c, a[1..], at - 1) + r)
  {
  }

  lemma OutsTell(a: seq<TxOut>, b: seq<TxOut>)
    requires |a| == |b| && ExportOuts(a) == ExportOuts(b)
    requires forall i | 0 <= i < |a| :: PrintableOut(a[i]) && PrintableOut(b[i])
    ensures a == b
  {
    OutsRead(a, []);
    OutsRead(b, []);
  }

  /**
    The bytes hashed at an input are the same for two transactions if and only if these have the same
    version, the same outputs, inputs of the same origins and sequences, and the same key hash there.
  */
  lemma TxHashTells<K>(c: Crypto<K>, t: Tx<K>, u: Tx<K>, at: nat)
    requires Regular(c, t) && Regular(c, u) && at < |t.ins|
    ensures TxHash(c, t, at) == TxHash(c, u, at) <==> SameCovered(c, t, u, at)
  {
    if SameCovered(c, t, u, at) {
      TxHashAlike(c, t, u, at);
    } else if TxHash(c, t, at) == TxHash(c, u, at) {
      BodiesTell(c, t, u, at);
      assert false;
    }
  }

  lemma BodiesTell<K>(c: Crypto<K>, t: Tx<K>, u: Tx<K>, at: nat)
    requires Regular(c, t) && Regular(c, u) && at < |t.ins| && TxHash(c, t, at) == TxHash(c, u, at)
    ensures SameCovered(c, t, u, at)
  {
    var n, n', m, m' := BigEndian(|t.ins|, 4), BigEndian(|u.ins|, 4), BigEndian(|t.outs|, 4), BigEndian(|u.outs|, 4);
    var x, y, o, o' := HashedIns(c, t.ins, at), HashedIns(c, u.ins, at), ExportOuts(t.outs), ExportOuts(u.outs);
    BodyParts(t.version, n, x, m, o, []);
    BodyParts(u.version, n', y, m', o', []);
    assert TxHash(c, t, at) == t.version + n + x + m + o + [];
    assert TxHash(c, u, at) == u.version + n' + y + m' + o' + [];
    assert x + (m + o + []) == x + (m + o) && y + (m' + o' + []) == y + (m' + o');
    hide HashedIns, ExportOuts, TxHash, SameIns, BigEndian, PrintableOut;
    Four(|t.ins|);
    Four(|u.ins|);
    HashedInsTell(c, t.ins, u.ins, at, m + o, m' + o');
    SplitAt(m, o, m', o');
    Four(|t.outs|);
    Four(|u.outs|);
    OutsTell(t.outs, u.outs);
  }

  /** Every input has a key to sign with. */
  predicate Keyed<K>(t: Tx<K>) { forall i | 0 <= i < |t.ins| :: t.ins[i].key.Some? }

  function SignIn<K>(c: Crypto<K>, t: Tx<K>, i: nat): TxIn<K>
    requires i < |t.ins| && t.ins[i].key.Some?
  {
    Hashed(t.ins[i]).(sign := c.sign(TxHash(c, t, i), t.ins[i].key.value), isSigned := true)
  }

  /** The script's key, where there is one, is the key that is signed with. */
  predicate OneKey<K(==)>(t: Tx<K>) { forall i | 0 <= i < |t.ins| && t.ins[i].scriptKey.Some? :: t.ins[i].scriptKey == t.ins[i].key }

  /** Every input signed over the transaction as it was. */
  function Signed<K>(c: Crypto<K>, t: Tx<K>): Tx<K>
    requires Keyed(t)
  {
    t.(ins := seq(|t.ins|, i requires 0 <= i < |t.ins| => SignIn(c, t, i)))
  }

  /** What was read so far, put before what the rest gives. */
  ghost function After<T>(read: seq<T>, at: nat, rest: Read<seq<T>>): Read<seq<T>> {
    match rest
    case None => None
    case Some((s, n)) => Some((read + s, at + n))
  }

  lemma InsNone<T>(r: Read<seq<T>>)
    ensures After([], 0, r) == r
  {
    if r.Some? { assert [] + r.value.0 == r.value.0; }
  }

  lemma NoIns<K>(c: Crypto<K>, b: Data)
    ensures ParseIns(c, b, 0) == Some(([], 0))
  {
  }

  lemma NoOuts(b: Data)
    ensures ParseOuts(b, 0) == Some(([], 0))
  {
  }

  lemma AfterNone<T>(read: seq<T>, at: nat)
    ensures After(read, at, Some(([], 0))) == Some((read, at))
  {
    assert read + [] == read;
  }

  lemma InsStep<K>(c: Crypto<K>, raw: Data, at: nat, count: nat, read: seq<TxIn<K>>)
    requires count > 0
    ensures var r := ParseIn(c, raw);
            After(read, at, ParseIns(c, raw, count))
              == if r.None? || |raw| < r.value.1 then None
                 else After(read + [r.value.0], at + r.value.1, ParseIns(c, raw[r.value.1..], count - 1))
  {
    hide ParseIn;
    var r := ParseIn(c, raw);
    if r.Some? && r.value.1 <= |raw| {
      var rest := ParseIns(c, raw[r.value.1..], count - 1);
      if rest.Some? { assert read + ([r.value.0] + rest.value.0) == read + [r.value.0] + rest.value.0; }
    }
  }

  lemma OutsParseStep(raw: Data, at: nat, count: nat, read: seq<TxOut>)
    requires count > 0
    ensures var r := ParseOut(raw);
            After(read, at, ParseOuts(raw, count))
              == if r.None? || |raw| < r.value.1 then None
                 else After(read + [r.value.0], at + r.value.1, ParseOuts(raw[r.value.1..], count - 1))
  {
    hide ParseOut;
    var r := ParseOut(raw);
    if r.Some? && r.value.1 <= |raw| {
      var rest := ParseOuts(raw[r.value.1..], count - 1);
      if rest.Some? { assert read + ([r.value.0] + rest.value.0) == read + [r.value.0] + rest.value.0; }
    }
  }

  lemma OutsStep(outs: seq<TxOut>, i: nat, raw: Data)
    requires i < |outs|
    ensures raw + ExportOuts(outs[i..]) == raw + ExportOut(outs[i]) + ExportOuts(outs[i + 1..])
  {
    assert outs[i..][1..] == outs[i + 1..];
  }

  lemma HashedStep<K>(c: Crypto<K>, ins: seq<TxIn<K>>, i: nat, index: nat, body: Data)
    requires i < |ins|
    ensures body + HashedIns(c, ins[i..], index - i)
         == body + (if i == index then ExportWithPubKeyHash(c, ins[i]) else ExportEmpty(ins[i])) + HashedIns(c, ins[i + 1..], index - (i + 1))
  {
    assert ins[i..][1..] == ins[i + 1..];
  }

  lemma SignedStep<K>(c: Crypto<K>, ins: seq<TxIn<K>>, i: nat, body: Data)
    requires i < |ins|
    ensures body + SignedIns(c, ins[i..]) == body + ExportWithSignature(c, ins[i]) + SignedIns(c, ins[i + 1..])
  {
    assert ins[i..][1..] == ins[i + 1..];
  }

  lemma SignedEnd<K>(c: Crypto<K>, ins: seq<TxIn<K>>, i: nat)
    requires i == |ins|
    ensures SignedIns(c, ins[i..]) == [] && forall body: Data :: body + SignedIns(c, ins[i..]) == body
  {
    assert ins[i..] == [];
  }

  lemma SignedExport<K>(c: Crypto<K>, t: Tx<K>)
    requires forall i | 0 <= i < |t.ins| :: t.ins[i].isSigned
    ensures Export(c, t) == t.version + BigEndian(|t.ins|, 4) + SignedIns(c, t.ins) + BigEndian(|t.outs|, 4) + ExportOuts(t.outs)
    ensures t.ins[0..] == t.ins && forall b: Data :: [] + b == b
  {
  }

  lemma TxHashIs<K>(c: Crypto<K>, t: Tx<K>, at: nat)
    ensures TxHash(c, t, at) == t.version + BigEndian(|t.ins|, 4) + HashedIns(c, t.ins, at) + BigEndian(|t.outs|, 4) + ExportOuts(t.outs)
  {
  }

  lemma HashedEnd<K>(c: Crypto<K>, ins: seq<TxIn<K>>, index: nat)
    ensures [] + HashedIns(c, ins[0..], index) == HashedIns(c, ins, index)
    ensures HashedIns(c, ins[|ins|..], index - |ins|) == []
  {
    assert ins[0..] == ins;
  }

  /** Reads so many inputs one after another. */
  method ImportIns<K>(c: Crypto<K>, raw: Data, count: nat) returns (r: Read<seq<TxIn<K>>>)
    ensures r == ParseIns(c, raw, count)
  {
    hide *;
    var rest, at: nat, i := raw, 0, 0;
    var read: seq<TxIn<K>> := [];
    InsNone(ParseIns(c, raw, count));
    while i < count
      invariant 0 <= i <= count
      invariant ParseIns(c, raw, count) == After(read, at, ParseIns(c, rest, count - i))
    {
      InsStep(c, rest, at, count - i, read);
      var first := ParseIn(c, rest);
      if first.None? || |rest| < first.value.1 { return None; }
      read := read + [first.value.0];
      rest, at, i := rest[first.value.1..], at + first.value.1, i + 1;
    }
    NoIns(c, rest);
    AfterNone(read, at);
    r := Some((read, at));
  }

  /** Reads so many outputs one after another. */
  method ImportOuts(raw: Data, count: nat) returns (r: Read<seq<TxOut>>)
    ensures r == ParseOuts(raw, count)
  {
    hide *;
    var rest, at: nat, i := raw, 0, 0;
    var read: seq<TxOut> := [];
    InsNone(ParseOuts(raw, count));
    while i < count
      invariant 0 <= i <= count
      invariant ParseOuts(raw, count) == After(read, at, ParseOuts(rest, count - i))
    {
      OutsParseStep(rest, at, count - i, read);
      var first := ParseOut(rest);
      if first.None? || |rest| < first.value.1 { return None; }
      read := read + [first.value.0];
      rest, at, i := rest[first.value.1..], at + first.value.1, i + 1;
    }
    NoOuts(rest);
    AfterNone(read, at);
    r := Some((read, at));
  }

  class P2PKH<K> {
    var version: Word
    var ins: seq<TxIn<K>>
    var outs: seq<TxOut>

    constructor ()
      ensures View() == Tx([0, 0, 0, 0], [], [])
    {
      version, ins, outs := [0, 0, 0, 0], [], [];
    }

    function View(): Tx<K>
      reads this
    {
      Tx(version, ins, outs)
    }

    /** The bytes to hash for one input; its script is cleared on the way. */
    method TxHashOnTxIn(c: Crypto<K>, index: nat) returns (raw: Data)
      modifies this
      ensures raw == TxHash(c, old(View()), index)
      ensures version == old(version) && outs == old(outs)
      ensures ins == if index < |old(ins)| then old(ins)[index := Hashed(old(ins)[index])] else old(ins)
    {
      ghost var t := View();
      hide HashedIns, ExportWithPubKeyHash, ExportEmpty, ExportOuts;
      HashedEnd(c, t.ins, index);
      var body := [];
      var i := 0;
      while i < |ins|
        invariant 0 <= i <= |ins| == |t.ins| && version == t.version && outs == t.outs
        invariant body + HashedIns(c, t.ins[i..], index - i) == HashedIns(c, t.ins, index)
        invariant ins == if index < i then t.ins[index := Hashed(t.ins[index])] else t.ins
      {
        HashedStep(c, t.ins, i, index, body);
        if i == index {
          body := body + ExportWithPubKeyHash(c, ins[i]);
          ins := ins[i := Hashed(ins[i])];
        } else {
          body := body + ExportEmpty(ins[i]);
        }
        i := i + 1;
      }
      var tail := PrintOuts();
      raw := version + BigEndian(|ins|, 4) + body + BigEndian(|outs|, 4) + tail;
    }

    method PrintOuts() returns (raw: Data)
      ensures raw == ExportOuts(outs)
    {
      hide ExportOut;
      raw := [];
      var i := 0;
      while i < |outs|
        invariant 0 <= i <= |outs| && raw + ExportOuts(outs[i..]) == ExportOuts(outs)
      {
        OutsStep(outs, i, raw);
        raw := raw + ExportOut(outs[i]);
        i := i + 1;
      }
      assert outs[i..] == [];
    }

    /** The bytes to sign for input i: signing has a loop of its own for them. */
    method BytesToSign(c: Crypto<K>, i: nat) returns (raw: Data)
      requires i < |ins|
      modifies this
      ensures raw == TxHash(c, old(View()), i)
      ensures version == old(version) && outs == old(outs) && ins == old(ins)[i := Hashed(old(ins)[i])]
    {
      ghost var t := View();
      TxHashIs(c, t, i);
      hide HashedIns, ExportWithPubKeyHash, ExportEmpty, TxHash, Body, BigEndian, ExportOuts, Hashed;
      HashedEnd(c, t.ins, i);
      var rawIns, rawOuts := [], [];
      var j := 0;
      while j < |ins|
        invariant 0 <= j <= |ins| == |t.ins| && version == t.version && outs == t.outs
        invariant rawIns + HashedIns(c, t.ins[j..], i - j) == HashedIns(c, t.ins, i)
        invariant ins == if i < j then t.ins[i := Hashed(t.ins[i])] else t.ins
      {
        HashedStep(c, t.ins, j, i, rawIns);
        if i == j {
          rawIns := rawIns + ExportWithPubKeyHash(c, ins[j]);
          ins := ins[j := Hashed(ins[j])];
        } else {
          rawIns := rawIns + ExportEmpty(ins[j]);
        }
        j := j + 1;
      }
      rawOuts := PrintOuts();
      raw := version;
      raw := raw + BigEndian(|ins|, 4);
      raw := raw + rawIns;
      raw := raw + BigEndian(|outs|, 4);
      raw := raw + rawOuts;
    }

    /** Signs every input in turn. */
    method Sign(c: Crypto<K>)
      requires Keyed(View())
      modifies this
      ensures View() == Signed(c, old(View()))
    {
      ghost var t := View();
      var i := 0;
      while i < |ins|
        invariant 0 <= i <= |ins| == |t.ins| && version == t.version && outs == t.outs
        invariant forall j | 0 <= j < i :: ins[j] == SignIn(c, t, j)
        invariant forall j | i <= j < |ins| :: ins[j] == t.ins[j]
      {
        TxHashAlike(c, View(), t, i);
        var raw := BytesToSign(c, i);
        ins := ins[i := ins[i].(sign := c.sign(raw, ins[i].key.value), isSigned := true)];
        i := i + 1;
      }
    }

    /** Nothing is printed as long as an input is not signed; printing makes the scripts anew. */
    method ExportRaw(c: Crypto<K>) returns (raw: Data)
      modifies this
      ensures raw == Export(c, old(View()))
      ensures version == old(version) && outs == old(outs) && |ins| == |old(ins)|
      ensures (exists i :: 0 <= i < |ins| && !old(ins)[i].isSigned) ==> ins == old(ins)
      ensures (forall i | 0 <= i < |ins| :: old(ins)[i].isSigned) ==> forall i | 0 <= i < |ins| :: ins[i] == Printed(c, old(ins)[i])
    {
      ghost var t := View();
      var i := 0;
      while i < |ins|
        invariant 0 <= i <= |ins| && View() == t && forall j | 0 <= j < i :: ins[j].isSigned
      {
        if !ins[i].isSigned { return []; }
        i := i + 1;
      }
      var body := [];
      i := 0;
      assert t.ins[0..] == t.ins;
      SignedExport(c, t);
      hide ExportWithSignature, Printed, ExportOuts, Export, Body, BigEndian, SignedIns;
      while i < |ins|
        invariant 0 <= i <= |ins| == |t.ins| && version == t.version && outs == t.outs
        invariant body + SignedIns(c, t.ins[i..]) == SignedIns(c, t.ins)
        invariant forall j | 0 <= j < i :: ins[j] == Printed(c, t.ins[j])
        invariant forall j | i <= j < |ins| :: ins[j] == t.ins[j]
      {
        SignedStep(c, t.ins, i, body);
        body := body + ExportWithSignature(c, ins[i]);
        ins := ins[i := Printed(c, ins[i])];
        i := i + 1;
      }
      SignedEnd(c, t.ins, i);
      var tail := PrintOuts();
      raw := version + BigEndian(|ins|, 4) + body + BigEndian(|outs|, 4) + tail;
    }

    /** Reads version, inputs and outputs; returns how many bytes that took. */
    method ImportRawSequentially(c: Crypto<K>, raw: Data) returns (size: Option<nat>)
      modifies this
      ensures size.Some? <==> ParseTx(c, raw).Some?
      ensures size.Some? ==>
                var (t, n) := ParseTx(c, raw).value;
                size.value == n && version == t.version && ins == old(ins) + t.ins && outs == old(outs) + t.outs
    {
      hide ParseIns, ParseOuts, Value;
      if |raw| < 8 { return None; }
      version := raw[..4];
      var first := ImportIns(c, raw[8..], Value(raw[4..8]));
      if first.None? { return None; }
      var (read, n) := first.value;
      ins := ins + read;
      if |raw| < 12 + n { return None; }
      var second := ImportOuts(raw[12 + n..], Value(raw[8 + n..12 + n]));
      if second.None? { return None; }
      outs := outs + second.value.0;
      size := Some(12 + n + second.value.1);
    }

    /** The spending of a locked output by one input, judged by the script machine. */
    method Validate(c: Crypto<K>, index: nat, pkScript: Script) returns (verdict: Verdict)
      requires index < |ins|
      modifies this
      ensures verdict == Judged(c, old(View()), index, pkScript)
      ensures version == old(version) && outs == old(outs) && ins == old(ins)[index := Hashed(old(ins)[index])]
    {
      var validator := new ScriptValidator(pkScript, ins[index].script);
      var msg := TxHashOnTxIn(c, index);
      verdict := validator.VerifyP2PKHScript(c, msg);
    }

    /**
      Looks every spent output up and judges each input; the verdicts are then overwritten with true.
      None: the machine gets stuck, the source reads past its stack.
    */
    method Verify(c: Crypto<K>, utxos: map<PrevOut, Script>) returns (flag: Option<bool>)
      modifies this
      ensures flag == Some(true) <==> old(ins) != [] && forall i | 0 <= i < |old(ins)| :: Spends(c, old(View()), utxos, i)
      ensures flag == Some(true) ==> |ins| == |old(ins)| && forall i | 0 <= i < |ins| :: ins[i] == Hashed(old(ins)[i])
    {
      ghost var t := View();
      hide Judged, Hashed;
      var result := false;
      var i := 0;
      while i < |ins|
        invariant 0 <= i <= |ins| == |t.ins| && version == t.version && outs == t.outs
        invariant result <==> i > 0
        invariant forall j | 0 <= j < i :: ins[j] == Hashed(t.ins[j]) && Spends(c, t, utxos, j)
        invariant forall j | i <= j < |ins| :: ins[j] == t.ins[j]
      {
        JudgedAlike(c, View(), t, i);
        assert Spends(c, t, utxos, i) ==> ins[i].prevOut in utxos && utxos[ins[i].prevOut] != [] && ins[i].script != [];
        if ins[i].prevOut !in utxos { return Some(false); }
        var pkScript := utxos[ins[i].prevOut];
        if pkScript == [] { return Some(false); }
        if ins[i].script == [] { return Some(false); }
        ghost var u := View();
        assert Judged(c, u, i, pkScript) == Judged(c, t, i, pkScript);
        var verdict := Validate(c, i, pkScript);
        if verdict.Stuck? {
          assert !Spends(c, t, utxos, i);
          return None;
        }
        result := true;
        i := i + 1;
      }
      flag := Some(result);
    }
  }

  /** What the script machine says about input i and a locking script. */
  function Judged<K>(c: Crypto<K>, t: Tx<K>, i: nat, pkScript: Script): Verdict
    requires i < |t.ins|
  {
    Run(c, TxHash(c, t, i), t.ins[i].script + pkScript, [])
  }

  /** The output that input i spends is there, both scripts say something, and the machine comes to a verdict. */
  predicate Spends<K>(c: Crypto<K>, t: Tx<K>, utxos: map<PrevOut, Script>, i: nat)
    requires i < |t.ins|
  {
    && t.ins[i].prevOut in utxos && utxos[t.ins[i].prevOut] != [] && t.ins[i].script != []
    && !Judged(c, t, i, utxos[t.ins[i].prevOut]).Stuck?
  }

  /** Inputs that were hashed before do not sway the verdict on the next one. */
  lemma JudgedAlike<K>(c: Crypto<K>, s: Tx<K>, t: Tx<K>, i: nat)
    requires s.version == t.version && s.outs == t.outs && |s.ins| == |t.ins| && i < |t.ins| && s.ins[i] == t.ins[i]
    requires forall j | 0 <= j < |t.ins| :: s.ins[j] == t.ins[j] || s.ins[j] == Hashed(t.ins[j])
    ensures forall pkScript :: Judged(c, s, i, pkScript) == Judged(c, t, i, pkScript)
  {
    TxHashAlike(c, s, t, i);
  }

  // ---------------------------------------------------------------- signed, printed, read, judged

  /** Signing does not change what is signed. */
  lemma SignedHash<K>(c: Crypto<K>, t: Tx<K>, at: nat)
    requires Keyed(t)
    ensures TxHash(c, Signed(c, t), at) == TxHash(c, t, at)
  {
    var s := Signed(c, t);
    assert forall i | 0 <= i < |t.ins| :: s.ins[i] == SignIn(c, t, i) && KeyHash(c, s.ins[i]) == KeyHash(c, t.ins[i]);
    TxHashAlike(c, s, t, at);
  }

  /** The bytes hashed at an input are the same before printing and after reading. */
  lemma ReadHash<K(!new)>(c: Crypto<K>, t: Tx<K>, at: nat)
    requires Sound(c) && PrintableTx(c, t)
    ensures TxHash(c, ReadTx(c, t), at) == TxHash(c, t, at)
  {
    var r := ReadTx(c, t);
    forall i | 0 <= i < |t.ins| 
      ensures r.ins[i].prevOut == t.ins[i].prevOut && r.ins[i].sequence == t.ins[i].sequence && KeyHash(c, r.ins[i]) == KeyHash(c, t.ins[i])
    {
      assert r.ins[i] == ReadIn(c, t.ins[i]);
      assert Printable(c, t.ins[i]);
    }
    TxHashAlike(c, r, t, at);
  }

  /**
    A transaction that is signed, printed and read again: the script machine accepts input i for
    exactly those locked outputs whose key hash is that of the input's key.
  */
  lemma SignedTxIsAccepted<K(!new)>(c: Crypto<K>, t: Tx<K>, i: nat, hash: Data, rest: Data)
    requires Sound(c) && Keyed(t) && OneKey(t) && PrintableTx(c, Signed(c, t)) && i < |t.ins| && |hash| == DIGEST
    ensures var read := ParseTx(c, Export(c, Signed(c, t)) + rest);
            && read.Some? && i < |read.value.0.ins| && read.value.1 == |Export(c, Signed(c, t))|
            && var u := read.value.0;
               && TxHash(c, u, i) == TxHash(c, t, i)
               && (Run(c, TxHash(c, u, i), u.ins[i].script + PkScript(hash), []).Continue?
                   <==> hash == KeyHash(c, t.ins[i]))
  {
    var s := Signed(c, t);
    TxReads(c, s, rest);
    SignedHash(c, t, i);
    ReadHash(c, s, i);
    InputAccepted(c, t, i, hash);
    hide Export, ParseTx, TxHash, Run, Signed, ReadTx, PrintableTx, Sound;
  }

  lemma InputAccepted<K(!new)>(c: Crypto<K>, t: Tx<K>, i: nat, hash: Data)
    requires Sound(c) && Keyed(t) && OneKey(t) && PrintableTx(c, Signed(c, t)) && i < |t.ins| && |hash| == DIGEST
    ensures var u := ReadTx(c, Signed(c, t));
            && i < |u.ins|
            && (Run(c, TxHash(c, t, i), u.ins[i].script + PkScript(hash), []).Continue? <==> hash == KeyHash(c, t.ins[i]))
  {
    var s := Signed(c, t);
    var x := s.ins[i];
    var raw := c.rawPubKey(x.scriptKey.value);
    assert x == SignIn(c, t, i) && Printable(c, x);
    AcceptsExactly(c, TxHash(c, t, i), x.sign, raw, hash);
    assert ReadTx(c, s).ins[i] == ReadIn(c, x);
  }

  /** Reading does not mark an input as signed: what was read cannot be printed again. */
  lemma ReadIsNotPrintedAgain<K>(c: Crypto<K>, t: Tx<K>)
    requires PrintableTx(c, t)
    ensures Export(c, ReadTx(c, t)) == [] <==> t.ins != []
  {
    if t.ins != [] {
      assert Printable(c, t.ins[0]);
      assert ReadTx(c, t).ins[0] == ReadIn(c, t.ins[0]);
    }
  }
}
