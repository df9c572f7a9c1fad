/** Scripts: their printed form, and the stack machine that judges a P2PKH spending. */
module Scripts {
  import opened Bytes
  import opened Seqs

  type Data = seq<Byte>

  const DUP: Byte := 0x76
  const HASH_160: Byte := 0xa9
  const EQUALVERIFY: Byte := 0x88
  const CHECKSIG: Byte := 0xac

  /** An operation, or data with its length byte as the operation code. */
  datatype Item = Dup | Hash160 | EqualVerify | CheckSig | Push(code: Byte, data: Data)

  type Script = seq<Item>

  predicate IsOpCode(b: Byte) { b == DUP || b == HASH_160 || b == EQUALVERIFY || b == CHECKSIG }

  /** A push holds as many bytes as its code says. */
  predicate Sized(s: Script) { forall i | 0 <= i < |s| && s[i].Push? :: |s[i].data| == s[i].code }

  /** No push has an operation code for its length. */
  predicate Plain(s: Script) { forall i | 0 <= i < |s| && s[i].Push? :: !IsOpCode(s[i].code) }

  function RawOpCode(i: Item): Byte {
    match i
    case Dup => DUP
    case Hash160 => HASH_160
    case EqualVerify => EQUALVERIFY
    case CheckSig => CHECKSIG
    case Push(code, _) => code
  }

  function PrintItem(i: Item): Data { [RawOpCode(i)] + (if i.Push? then i.data else []) }

  function Print(s: Script): Data {
    if s == [] then [] else PrintItem(s[0]) + Print(s[1..])
  }

  /** The first item of the bytes, when they hold all of it. */
  function ParseItem(b: Data): Option<Item>
    requires b != []
  {
    if b[0] == DUP then Some(Dup)
    else if b[0] == HASH_160 then Some(Hash160)
    else if b[0] == EQUALVERIFY then Some(EqualVerify)
    else if b[0] == CHECKSIG then Some(CheckSig)
    else if |b| <= b[0] then None
    else Some(Push(b[0], b[1..1 + b[0]]))
  }

  function ItemSize(i: Item): nat { if i.Push? then 1 + i.code else 1 }

  /** None: the last push is cut short, and the source would read past the end. */
  function Parse(b: Data): Option<Script> {
    if b == [] then Some([])
    else
      match ParseItem(b)
      case None => None
      case Some(i) =>
        match Parse(b[ItemSize(i)..])
        case None => None
        case Some(s) => Some([i] + s)
  }

  lemma ParsePrintItem(i: Item, rest: Data)
    requires i.Push? ==> |i.data| == i.code
    ensures PrintItem(i) + rest != []
    ensures !(i.Push? && IsOpCode(i.code)) ==>
              ParseItem(PrintItem(i) + rest) == Some(i) && (PrintItem(i) + rest)[ItemSize(i)..] == rest
    ensures i.Push? && IsOpCode(i.code) ==> ParseItem(PrintItem(i) + rest).Some? && !ParseItem(PrintItem(i) + rest).value.Push?
  {
    if i.Push? { assert (PrintItem(i) + rest)[1..1 + i.code] == i.data; }
  }

  /** A script is read back exactly when no push is as long as an operation code says. */
  lemma {:induction false} RoundTrip(s: Script)
    requires Sized(s)
    ensures Parse(Print(s)) == Some(s) <==> Plain(s)
  {
    if s != [] {
      RoundTrip(s[1..]);
      ParsePrintItem(s[0], Print(s[1..]));
      PlainTail(s);
      assert s == [s[0]] + s[1..];
    }
  }

  lemma PlainTail(s: Script)
    requires s != []
    ensures Plain(s) <==> Plain(s[1..]) && !(s[0].Push? && IsOpCode(s[0].code))
  {
    assert forall i | 0 < i < |s| :: s[i] == s[1..][i - 1];
  }

  // ---------------------------------------------------------------- the script object

  class ScriptObject {
    var items: Script

    constructor ()
      ensures items == []
    {
      items := [];
    }

    method Clear()
      modifies this
      ensures items == []
    {
      items := [];
    }

    method PushBack(i: Item)
      modifies this
      ensures items == old(items) + [i]
    {
      items := items + [i];
    }

    method ExportRaw() returns (raw: Data)
      ensures raw == Print(items)
    {
      raw := [];
      var i := 0;
      while i < |items|
        invariant 0 <= i <= |items| && raw + Print(items[i..]) == Print(items)
      {
        raw := raw + [RawOpCode(items[i])];
        if items[i].Push? { raw := raw + items[i].data; }
        i := i + 1;
      }
    }

    /** Appends the items that the bytes spell. */
    method ImportRaw(raw: Data) returns (ok: bool)
      modifies this
      ensures ok == Parse(raw).Some?
      ensures ok ==> items == old(items) + Parse(raw).value
    {
      var i := 0;
      ghost var read: Script := [];
      assert raw[0..] == raw;
      assert Parse(raw).Some? ==> [] + Parse(raw).value == Parse(raw).value;
      while i < |raw|
        invariant 0 <= i <= |raw| && items == old(items) + read
        invariant Parse(raw) == match Parse(raw[i..]) case None => None case Some(s) => Some(read + s)
      {
        var item := ParseItem(raw[i..]);
        ParseMore(raw, i, read);
        if item.None? { return false; }
        PushBack(item.value);
        read := read + [item.value];
        i := i + ItemSize(item.value);
      }
      ok := true;
    }
  }

  lemma ParseMore(raw: Data, i: nat, read: Script)
    requires i < |raw|
    ensures ParseItem(raw[i..]).None? ==> Parse(raw[i..]).None?
    ensures ParseItem(raw[i..]).Some? ==>
              var item := ParseItem(raw[i..]).value;
              i + ItemSize(item) <= |raw|
              && (match Parse(raw[i..]) case None => None case Some(s) => Some(read + s))
              == (match Parse(raw[i + ItemSize(item)..]) case None => None case Some(s) => Some(read + [item] + s))
  {
    if ParseItem(raw[i..]).Some? {
      var item := ParseItem(raw[i..]).value;
      assert raw[i..][ItemSize(item)..] == raw[i + ItemSize(item)..];
      var rest := Parse(raw[i + ItemSize(item)..]);
      if rest.Some? { assert read + ([item] + rest.value) == read + [item] + rest.value; }
    }
  }

  // ---------------------------------------------------------------- the stack machine

  /** The cryptographic operations, left open. */
  datatype Crypto<!K> = Crypto(
    rawPubKey: K -> Data,
    toPkey: Data -> K,
    sign: (Data, K) -> Data,
    sha1: Data -> Data,
    verify: (Data, Data, K) -> bool)

  const DIGEST: nat := 20

  /** What lies on the stack: data with the length its operation code stands for. */
  datatype Elem = Elem(length: nat, data: Data)

  datatype Verdict = Continue(stack: seq<Elem>) | Reject | Stuck

  function Top(stack: seq<Elem>): (e: Elem)
    requires stack != []
  {
    stack[|stack| - 1]
  }

  function Pop(stack: seq<Elem>): (s: seq<Elem>)
    requires stack != []
  {
    stack[..|stack| - 1]
  }

  function Taken(e: Elem): Data { if e.length <= |e.data| then e.data[..e.length] else e.data }

  /** One operation; stuck where the source would pop an empty stack or compare past the data. */
  function Step<K>(c: Crypto<K>, msg: Data, i: Item, stack: seq<Elem>): Verdict {
    match i
    case Dup => if stack == [] then Stuck else Continue(stack + [Top(stack)])
    case Hash160 => if stack == [] then Stuck else Continue(Pop(stack) + [Elem(DIGEST, c.sha1(Taken(Top(stack))))])
    case EqualVerify =>
      if |stack| < 2 then Stuck
      else
        var a, b := Top(stack), Top(Pop(stack));
        if |a.data| < a.length || |b.data| < a.length then Stuck
        else if a.data[..a.length] == b.data[..a.length] then Continue(Pop(Pop(stack)))
        else Reject
    case CheckSig =>
      if |stack| < 2 then Stuck
      else
        var key, sig := Top(stack), Top(Pop(stack));
        if c.verify(Taken(sig), msg, c.toPkey(Taken(key))) then Continue(Pop(Pop(stack))) else Reject
    case Push(code, data) => Continue(stack + [Elem(code, data)])
  }

  /** The machine accepts when it comes to the end of the joined script. */
  function Run<K>(c: Crypto<K>, msg: Data, s: Script, stack: seq<Elem>): Verdict {
    if s == [] then Continue(stack)
    else
      match Step(c, msg, s[0], stack)
      case Continue(t) => Run(c, msg, s[1..], t)
      case Reject => Reject
      case Stuck => Stuck
  }

  class ScriptValidator {
    var stack: seq<Elem>
    const joined: Script

    constructor (pkScript: Script, signatureScript: Script)
      ensures stack == [] && joined == signatureScript + pkScript
    {
      stack, joined := [], signatureScript + pkScript;
    }

    method VerifyP2PKHScript<K>(c: Crypto<K>, msg: Data) returns (verdict: Verdict)
      modifies this
      ensures verdict == Run(c, msg, joined, old(stack))
    {
      var i := 0;
      while i < |joined|
        invariant 0 <= i <= |joined| && Run(c, msg, joined, old(stack)) == Run(c, msg, joined[i..], stack)
      {
        var v := Step(c, msg, joined[i], stack);
        if !v.Continue? { return v; }
        stack := v.stack;
        assert joined[i..][1..] == joined[i + 1..];
        i := i + 1;
      }
      assert joined[i..] == [];
      verdict := Continue(stack);
    }
  }

  /** The locking script for a key hash. */
  function PkScript(hash: Data): Script { [Dup, Hash160, Push(0x14, hash), EqualVerify, CheckSig] }

  /** The unlocking script: signature and raw public key, their lengths cut to a byte. */
  function SignatureScript(sig: Data, key: Data): Script {
    [Push(|sig| % 256, sig[..|sig| % 256]), Push(|key| % 256, key[..|key| % 256])]
  }

  lemma PrintMore(s: Script)
    requires s != []
    ensures Print(s) == PrintItem(s[0]) + Print(s[1..])
  {
  }

  /** The twenty-five bytes of a locking script. */
  lemma PkScriptBytes(hash: Data)
    requires |hash| == 20
    ensures Print(PkScript(hash)) == [0x76, 0xa9, 0x14] + hash + [0x88, 0xac]
  {
    var s := PkScript(hash);
    forall i | 0 <= i < |s| ensures Print(s[i..]) == PrintItem(s[i]) + Print(s[i + 1..]) {
      PrintMore(s[i..]);
      assert s[i..][1..] == s[i + 1..];
    }
    assert s[0..] == s && s[5..] == [];
  }

  /** The bytes of an unlocking script: each part behind its length. */
  lemma SignatureScriptBytes(sig: Data, key: Data)
    requires |sig| < 256 && |key| < 256
    ensures Print(SignatureScript(sig, key)) == [|sig|] + sig + [|key|] + key
  {
    var s := SignatureScript(sig, key);
    assert sig[..|sig|] == sig && key[..|key|] == key;
    PrintMore(s);
    PrintMore(s[1..]);
    assert s[1..][0] == s[1] && s[1..][1..] == [];
  }

  /** A P2PKH spending is accepted exactly when the key has the locked hash and the signature verifies. */
  lemma AcceptsExactly<K>(c: Crypto<K>, msg: Data, sig: Data, key: Data, hash: Data)
    requires |sig| < 256 && |key| < 256 && |hash| == DIGEST && |c.sha1(key)| == DIGEST
    ensures Run(c, msg, SignatureScript(sig, key) + PkScript(hash), []).Continue?
       <==> c.sha1(key) == hash && c.verify(sig, msg, c.toPkey(key))
    ensures !Run(c, msg, SignatureScript(sig, key) + PkScript(hash), []).Stuck?
  {
    var s := SignatureScript(sig, key) + PkScript(hash);
    var e1, e2, g := Elem(|sig|, sig), Elem(|key|, key), Elem(DIGEST, hash);
    var h := Elem(DIGEST, c.sha1(key));
    AfterFive(c, msg, sig, key, hash);
    RunStep(c, msg, s, 5, [e1, e2, h, g]);
    assert Pop([e1, e2, h, g]) == [e1, e2, h] && Pop([e1, e2, h]) == [e1, e2] && Pop([e1, e2]) == [e1];
    assert g.data[..DIGEST] == hash && h.data[..DIGEST] == c.sha1(key);
    RunStep(c, msg, s, 6, [e1, e2]);
    assert Taken(e2) == key && Taken(e1) == sig;
    assert s[7..] == [];
  }

  /** Up to the comparison: signature, key, hash of the key, locked hash. */
  lemma AfterFive<K>(c: Crypto<K>, msg: Data, sig: Data, key: Data, hash: Data)
    requires |sig| < 256 && |key| < 256
    ensures var s := SignatureScript(sig, key) + PkScript(hash);
            Run(c, msg, s, []) == Run(c, msg, s[5..], [Elem(|sig|, sig), Elem(|key|, key), Elem(DIGEST, c.sha1(key)), Elem(DIGEST, hash)])
  {
    var s := SignatureScript(sig, key) + PkScript(hash);
    var e1, e2, h := Elem(|sig|, sig), Elem(|key|, key), Elem(DIGEST, c.sha1(key));
    assert sig[..|sig|] == sig && key[..|key|] == key;
    assert s[0] == Push(|sig|, sig) && s[1] == Push(|key|, key) && s[2] == Dup && s[3] == Hash160 && s[4] == Push(0x14, hash);
    assert Taken(e2) == key;
    assert Top([e1, e2, e2]) == e2 && Pop([e1, e2, e2]) == [e1, e2];
    assert Step(c, msg, s[0], []) == Continue([e1]);
    assert Step(c, msg, s[1], [e1]) == Continue([e1, e2]);
    assert Step(c, msg, s[2], [e1, e2]) == Continue([e1, e2, e2]);
    assert Step(c, msg, s[3], [e1, e2, e2]) == Continue([e1, e2, h]);
    assert Step(c, msg, s[4], [e1, e2, h]) == Continue([e1, e2, h, Elem(DIGEST, hash)]);
    hide Run, SignatureScript, PkScript, Taken, Step;
    RunStep(c, msg, s, 0, []);
    RunStep(c, msg, s, 1, [e1]);
    RunStep(c, msg, s, 2, [e1, e2]);
    RunStep(c, msg, s, 3, [e1, e2, e2]);
    RunStep(c, msg, s, 4, [e1, e2, h]);
  }

  lemma RunStep<K>(c: Crypto<K>, msg: Data, s: Script, i: nat, stack: seq<Elem>)
    requires i < |s|
    ensures s[0..] == s
    ensures Run(c, msg, s[i..], stack) ==
              match Step(c, msg, s[i], stack)
              case Continue(t) => Run(c, msg, s[i + 1..], t)
              case Reject => Reject
              case Stuck => Stuck
  {
    assert s[i..][1..] == s[i + 1..];
  }
}
