/**
  The encrypting side of the SSLv3 record layer, with its evolving IV and sequence number, and the
  peer that undoes it.  The peer is a specification: the program only has the sender.
 */
module Records {
  import opened Base
  import opened Cbc

  const MAC_LEN := 20
  const HEADER := 5
  const MAX_DATA := 65499
  const SEQ_LIMIT := 0x1_0000_0000_0000_0000

  const SEQ_ERROR := "sequence number does not fit 8 bytes"
  const LENGTH_ERROR := "record does not fit its length field"

  /** The primitives the session is built from. */
  datatype Suite = Suite(cipher: BlockCipher, md5: Md5, sha1: Sha1)

  datatype Record = Record(rtype: byte, data: Bytes)

  /** The client's write keys. */
  datatype Keys = Keys(mac: Bytes, cipher: Bytes)

  /** The part of the session a sender changes from record to record. */
  datatype Sender = Sender(iv: Bytes, seqno: nat) {
    predicate Valid() { |iv| == BLOCK }
  }

  /** SSLv3 MAC over sequence number, type and data; unlike the standard one, not over the length. */
  function Mac(s: Suite, key: Bytes, seqno: nat, r: Record): (m: Bytes)
    ensures |m| == MAC_LEN
  {
    var header := U64Big(seqno) + [r.rtype];
    var inner := s.sha1.digest(key + Repeat(0x36, 40) + header + r.data);
    s.sha1.digest(key + Repeat(0x5c, 40) + inner)
  }

  /**
    The MAC of section 5.2.3.1 of RFC 6101 with any hash, the pads 48 bytes long under a digest of 16
    and 40 under one of 20.  As the sensor wants it, the record length is left out.
   */
  function StandardMac(h: Hash, secret: Bytes, seqno: nat, rtype: byte, content: Bytes): Bytes {
    var pad := if h.size == 16 then 48 else 40;
    var inner := h.digest(secret + seq(pad, _ => 0x36) + BigEndian(seqno, 8) + [rtype] + content);
    h.digest(secret + seq(pad, _ => 0x5c) + inner)
  }

  lemma MacIsStandard(s: Suite, key: Bytes, seqno: nat, r: Record)
    ensures Mac(s, key, seqno, r) == StandardMac(s.sha1, key, seqno, r.rtype, r.data)
  {
    FieldsAreBigEndian(seqno);
    var ipad: Bytes, opad: Bytes := seq(40, _ => 0x36), seq(40, _ => 0x5c);
    assert Repeat(0x36, 40) == ipad && Repeat(0x5c, 40) == opad;
    assert key + ipad + (U64Big(seqno) + [r.rtype]) + r.data == key + ipad + BigEndian(seqno, 8) + [r.rtype] + r.data;
  }

  /** The MAC binds the key: two keys with the same MAC of a record give a collision of SHA-1. */
  lemma MacBindsKey(s: Suite, key: Bytes, key': Bytes, seqno: nat, r: Record) returns (x: Bytes, y: Bytes)
    requires key != key' && |key| == |key'| && Mac(s, key, seqno, r) == Mac(s, key', seqno, r)
    ensures Collision(s.sha1, x, y)
  {
    var inner := s.sha1.digest(MacText(key, seqno, r));
    var inner' := s.sha1.digest(MacText(key', seqno, r));
    x, y := key + Repeat(0x5c, 40) + inner, key' + Repeat(0x5c, 40) + inner';
    assert x[..|key|] == key && y[..|key|] == key';
  }

  /** The keyed text of the inner hash. */
  function MacText(key: Bytes, seqno: nat, r: Record): Bytes {
    key + Repeat(0x36, 40) + (U64Big(seqno) + [r.rtype]) + r.data
  }

  lemma MacTextInjective(key: Bytes, m: nat, n: nat, r: Record, r': Record)
    requires m < SEQ_LIMIT && n < SEQ_LIMIT && MacText(key, m, r) == MacText(key, n, r')
    ensures m == n && r == r'
  {
    var x, y, k := MacText(key, m, r), MacText(key, n, r'), |key| + 40;
    assert x[k..k + 8] == U64Big(m) && y[k..k + 8] == U64Big(n);
    assert x[k + 8] == r.rtype && y[k + 8] == r'.rtype;
    assert x[k + 9..] == r.data && y[k + 9..] == r'.data;
    U64BigInjective(m, n);
  }

  /**
    The MAC binds sequence number, type and data, and so the length too although it is not hashed: two
    different records or positions with the same MAC give a collision of SHA-1.
   */
  lemma MacBindsRecord(s: Suite, key: Bytes, m: nat, n: nat, r: Record, r': Record) returns (x: Bytes, y: Bytes)
    requires m < SEQ_LIMIT && n < SEQ_LIMIT && (m, r) != (n, r') && Mac(s, key, m, r) == Mac(s, key, n, r')
    ensures Collision(s.sha1, x, y)
  {
    x, y := MacText(key, m, r), MacText(key, n, r');
    if x == y { MacTextInjective(key, m, n, r, r'); }
    var inner, inner' := s.sha1.digest(x), s.sha1.digest(y);
    if inner != inner' {
      x, y := key + Repeat(0x5c, 40) + inner, key + Repeat(0x5c, 40) + inner';
      assert x[|key| + 40..] == inner && y[|key| + 40..] == inner';
    }
  }

  function PadLength(n: nat): (p: nat)
    ensures 1 <= p <= BLOCK && (n + p) % BLOCK == 0
  {
    BLOCK - n % BLOCK
  }

  /** What is encrypted for one record: data, MAC, and padding whose bytes are its length less one. */
  function Body(s: Suite, k: Keys, seqno: nat, r: Record): (b: Bytes)
    ensures |b| % BLOCK == 0 && |b| == |r.data| + MAC_LEN + PadLength(|r.data| + MAC_LEN)
  {
    var p := PadLength(|r.data| + MAC_LEN);
    r.data + Mac(s, k.mac, seqno, r) + Repeat((p - 1) as byte, p)
  }

  function CipherText(s: Suite, k: Keys, st: Sender, r: Record): (c: Bytes)
    requires st.Valid()
    ensures |c| == |Body(s, k, st.seqno, r)|
  {
    Encrypt(s.cipher, k.cipher, st.iv, Body(s, k, st.seqno, r))
  }

  /** The sender after one record, whether or not the record could be framed. */
  function After(s: Suite, k: Keys, st: Sender, r: Record): (t: Sender)
    requires st.Valid()
    ensures t.Valid()
  {
    Sender(NextIv(st.iv, CipherText(s, k, st, r)), st.seqno + 1)
  }

  /** A record on the wire: type, version 3.0, big-endian length, payload. */
  function Frame(rtype: byte, payload: Bytes): (w: Bytes)
    ensures |w| == HEADER + |payload|
  {
    [rtype, 3, 0] + U16Big(|payload|) + payload
  }

  function Encoded(s: Suite, k: Keys, st: Sender, r: Record): Bytes
    requires st.Valid()
  {
    Frame(r.rtype, CipherText(s, k, st, r))
  }

  /** The ciphertext fits the 16-bit length field exactly when the data has at most 65499 bytes. */
  lemma FitsExactly(s: Suite, k: Keys, st: Sender, r: Record)
    requires st.Valid()
    ensures |CipherText(s, k, st, r)| <= 0xffff <==> |r.data| <= MAX_DATA
    ensures |CipherText(s, k, st, r)| >= 32
  {
    var n := |r.data| + MAC_LEN;
    assert n + PadLength(n) == (n / BLOCK + 1) * BLOCK;
  }

  /**
    A record byte by byte: type, version 3.0, big-endian length of the rest; decrypted, the rest is the
    data, the 20 bytes of the MAC, and 1 to 16 bytes of padding, each its length less one.
   */
  lemma RecordOnTheWire(s: Suite, k: Keys, st: Sender, r: Record)
    requires st.Valid() && |r.data| <= 65499
    ensures var w, n := Encoded(s, k, st, r), |r.data|;
            && w[0] == r.rtype && w[1] == 3 && w[2] == 0 && 256 * w[3] as nat + w[4] as nat == |w| - 5
            && |w[5..]| % 16 == 0 && n + 20 < |w[5..]| <= n + 36
            && var body := Decrypt(s.cipher, k.cipher, st.iv, w[5..]);
               && body[..n] == r.data
               && body[n..n + 20] == StandardMac(s.sha1, k.mac, st.seqno, r.rtype, r.data)
               && forall i | n + 20 <= i < |body| :: body[i] as nat == |body| - (n + 20) - 1
  {
    var w, n, body := Encoded(s, k, st, r), |r.data|, Body(s, k, st.seqno, r);
    FitsExactly(s, k, st, r);
    U16BigRoundTrip(|CipherText(s, k, st, r)|);
    assert w[3..5] == U16Big(|CipherText(s, k, st, r)|) && w[5..] == CipherText(s, k, st, r);
    assert w[3] == w[3..5][0] && w[4] == w[3..5][1];
    DecryptInvertsEncrypt(s.cipher, k.cipher, st.iv, body);
    MacIsStandard(s, k.mac, st.seqno, r);
    assert body[..n] == r.data && body[n..n + 20] == Mac(s, k.mac, st.seqno, r);
  }

  class SslState {
    const suite: Suite
    const cmac: Bytes
    const smac: Bytes
    const ckey: Bytes
    const skey: Bytes
    const siv: Bytes
    var civ: Bytes
    var sendSeq: nat
    var recvSeq: nat

    predicate Valid()
      reads this
    {
      |civ| == BLOCK
    }

    function ClientKeys(): Keys { Keys(cmac, ckey) }

    function View(): Sender
      reads this
    {
      Sender(civ, sendSeq)
    }

    /** The 136-byte key block is cut into its six parts, in order and without a gap. */
    constructor (suite: Suite, keyblock: Bytes)
      requires |keyblock| == 136
      ensures Valid() && this.suite == suite && View() == Sender(keyblock[104..120], 0) && recvSeq == 0
      ensures cmac + smac + ckey + skey + civ + siv == keyblock
      ensures |cmac| == |smac| == 20 && |ckey| == |skey| == 32 && |civ| == |siv| == 16
      ensures ClientKeys() == Keys(keyblock[..20], keyblock[40..72])
    {
      this.suite := suite;
      cmac, smac := keyblock[0..20], keyblock[20..40];
      ckey, skey := keyblock[40..72], keyblock[72..104];
      civ, siv := keyblock[104..120], keyblock[120..136];
      sendSeq, recvSeq := 0, 0;
      new;
      assert cmac + smac + ckey + skey + civ + siv == keyblock;
    }

    /**
      Sequence numbers past 64 bits fail before anything changes.  A ciphertext too long for the
      length field fails only after the sequence number and the IV have moved on.
     */
    method EncryptRecord(rtype: byte, data: Bytes) returns (out: Result<Bytes>)
      requires Valid()
      modifies this`civ, this`sendSeq
      ensures Valid()
      ensures old(sendSeq) >= SEQ_LIMIT ==> out == Err(SEQ_ERROR) && View() == old(View())
      ensures old(sendSeq) < SEQ_LIMIT ==>
                && View() == After(suite, ClientKeys(), old(View()), Record(rtype, data))
                && out == if |data| > MAX_DATA then Err(LENGTH_ERROR)
                          else Ok(Encoded(suite, ClientKeys(), old(View()), Record(rtype, data)))
    {
      if sendSeq >= SEQ_LIMIT {
        return Err(SEQ_ERROR);
      }
      var m := Mac(suite, cmac, sendSeq, Record(rtype, data));
      sendSeq := sendSeq + 1;
      var body := data + m;
      var padlen := 16 - |body| % 16;
      body := body + Repeat((padlen - 1) as byte, padlen);
      var ct := Encrypt(suite.cipher, ckey, civ, body);
      FitsExactly(suite, ClientKeys(), old(View()), Record(rtype, data));
      civ := ct[|ct| - 16..];
      if |ct| > 0xffff {
        return Err(LENGTH_ERROR);
      }
      return Ok([rtype, 3, 0] + U16Big(|ct|) + ct);
    }

    /** One call after the other, up to the first that fails. */
    method EncryptRecords(rs: seq<Record>) returns (out: Result<Bytes>)
      requires Valid()
      modifies this`civ, this`sendSeq
      ensures Valid() && out == SendAll(suite, ClientKeys(), old(View()), rs)
      ensures View() == SenderLeft(suite, ClientKeys(), old(View()), rs)
      ensures out.Ok? ==> View() == SenderAfter(suite, ClientKeys(), old(View()), rs)
    {
      var sent: Bytes := [];
      assert rs[0..] == rs;
      PrefixedNothing(SendAll(suite, ClientKeys(), View(), rs));
      for i := 0 to |rs|
        invariant Valid()
        invariant Prefixed(sent, SendAll(suite, ClientKeys(), View(), rs[i..]))
                  == SendAll(suite, ClientKeys(), old(View()), rs)
        invariant SenderLeft(suite, ClientKeys(), View(), rs[i..]) == SenderLeft(suite, ClientKeys(), old(View()), rs)
      {
        assert rs[i..][0] == rs[i] && rs[i..][1..] == rs[i + 1..];
        ghost var later := if View().seqno < SEQ_LIMIT
          then SendAll(suite, ClientKeys(), After(suite, ClientKeys(), View(), rs[i]), rs[i + 1..]) else Ok([]);
        var one := EncryptRecord(rs[i].rtype, rs[i].data);
        if one.Err? {
          return one;
        }
        PrefixedTwice(sent, one.value, later);
        sent := sent + one.value;
      }
      assert sent + [] == sent;
      out := Ok(sent);
      SentAllLeaves(suite, ClientKeys(), old(View()), rs);
    }
  }

  // ---- A stream of records ----------------------------------------------------------------

  /** What a list of `EncryptRecord` calls sends; nothing once a call fails. */
  function SendAll(s: Suite, k: Keys, st: Sender, rs: seq<Record>): Result<Bytes>
    requires st.Valid()
    decreases |rs|
  {
    if rs == [] then Ok([])
    else if st.seqno >= SEQ_LIMIT then Err(SEQ_ERROR)
    else if |rs[0].data| > MAX_DATA then Err(LENGTH_ERROR)
    else Prefixed(Encoded(s, k, st, rs[0]), SendAll(s, k, After(s, k, st, rs[0]), rs[1..]))
  }

  /** `sent` and then whatever comes out of the rest. */
  function Prefixed(sent: Bytes, rest: Result<Bytes>): Result<Bytes> {
    match rest
    case Err(e) => Err(e)
    case Ok(more) => Ok(sent + more)
  }

  lemma PrefixedNothing(rest: Result<Bytes>)
    ensures Prefixed([], rest) == rest
  {
    if rest.Ok? { assert [] + rest.value == rest.value; }
  }

  lemma PrefixedTwice(a: Bytes, b: Bytes, rest: Result<Bytes>)
    ensures Prefixed(a, Prefixed(b, rest)) == Prefixed(a + b, rest)
  {
    if rest.Ok? { assert a + (b + rest.value) == (a + b) + rest.value; }
  }

  /** The sender such a list of calls leaves: a record that is too long has moved it all the same. */
  function SenderLeft(s: Suite, k: Keys, st: Sender, rs: seq<Record>): (t: Sender)
    requires st.Valid()
    ensures t.Valid()
    decreases |rs|
  {
    if rs == [] || st.seqno >= SEQ_LIMIT then st
    else if |rs[0].data| > MAX_DATA then After(s, k, st, rs[0])
    else SenderLeft(s, k, After(s, k, st, rs[0]), rs[1..])
  }

  lemma {:induction false} SentAllLeaves(s: Suite, k: Keys, st: Sender, rs: seq<Record>)
    requires st.Valid() && SendAll(s, k, st, rs).Ok?
    ensures SenderLeft(s, k, st, rs) == SenderAfter(s, k, st, rs)
    decreases |rs|
  {
    if rs != [] {
      SentAllLeaves(s, k, After(s, k, st, rs[0]), rs[1..]);
    }
  }

  lemma {:induction false} SendsExactlyWhenAllFit(s: Suite, k: Keys, st: Sender, rs: seq<Record>)
    requires st.Valid()
    ensures SendAll(s, k, st, rs).Ok? <==>
            && (rs == [] || st.seqno + |rs| <= 0x1_0000_0000_0000_0000)
            && forall i | 0 <= i < |rs| :: |rs[i].data| <= 65499
    decreases |rs|
  {
    if rs != [] {
      SendsExactlyWhenAllFit(s, k, After(s, k, st, rs[0]), rs[1..]);
      assert forall i | 1 <= i < |rs| :: rs[i] == rs[1..][i - 1];
      if forall i | 0 <= i < |rs[1..]| :: |rs[1..][i].data| <= MAX_DATA {
        assert forall i | 1 <= i < |rs| :: |rs[i].data| <= MAX_DATA;
      }
    }
  }

  /** The record at the head of a stream. */
  datatype Parsed = Parsed(rtype: byte, payload: Bytes, rest: Bytes)

  function ParseFrame(wire: Bytes): (p: Option<Parsed>)
    ensures p.Some? ==> |p.value.rest| < |wire|
  {
    if |wire| < HEADER || wire[1] != 3 || wire[2] != 0 then None
    else
      var n := FromU16Big(wire[3..5]);
      if |wire| < HEADER + n then None
      else Some(Parsed(wire[0], wire[HEADER..HEADER + n], wire[HEADER + n..]))
  }

  lemma ParseInvertsFrame(rtype: byte, payload: Bytes, rest: Bytes)
    requires |payload| <= 0xffff
    ensures ParseFrame(Frame(rtype, payload) + rest) == Some(Parsed(rtype, payload, rest))
  {
    var wire := Frame(rtype, payload) + rest;
    U16BigRoundTrip(|payload|);
    assert wire[3..5] == U16Big(|payload|);
    assert wire[HEADER..HEADER + |payload|] == payload;
    assert wire[HEADER + |payload|..] == rest;
  }

  /** Takes padding and MAC off a decrypted body, if both check. */
  function Open(s: Suite, k: Keys, seqno: nat, rtype: byte, body: Bytes): Option<Record> {
    if body == [] then None
    else
      var p := body[|body| - 1] as nat + 1;
      if p > BLOCK || |body| < p + MAC_LEN then None
      else
        var n := |body| - p - MAC_LEN;
        var r := Record(rtype, body[..n]);
        if body[n..n + MAC_LEN] == StandardMac(s.sha1, k.mac, seqno, rtype, body[..n]) then Some(r) else None
  }

  /** The peer: the same keys, IV and sequence number, one record after the other. */
  function ReceiveAll(s: Suite, k: Keys, st: Sender, wire: Bytes): Option<seq<Record>>
    requires st.Valid()
    decreases |wire|
  {
    if wire == [] then Some([])
    else
      match ParseFrame(wire)
      case None => None
      case Some(p) =>
        if |p.payload| % BLOCK != 0 then None
        else
          match Open(s, k, st.seqno, p.rtype, Decrypt(s.cipher, k.cipher, st.iv, p.payload))
          case None => None
          case Some(r) =>
            match ReceiveAll(s, k, Sender(NextIv(st.iv, p.payload), st.seqno + 1), p.rest)
            case None => None
            case Some(rs) => Some([r] + rs)
  }

  lemma OpenInvertsBody(s: Suite, k: Keys, seqno: nat, r: Record)
    ensures Open(s, k, seqno, r.rtype, Body(s, k, seqno, r)) == Some(r)
  {
    var body, n := Body(s, k, seqno, r), |r.data|;
    MacIsStandard(s, k.mac, seqno, r);
    assert body[..n] == r.data && body[n..n + MAC_LEN] == Mac(s, k.mac, seqno, r);
  }

  lemma SendsFirst(s: Suite, k: Keys, st: Sender, rs: seq<Record>)
    requires st.Valid() && rs != [] && SendAll(s, k, st, rs).Ok?
    ensures |rs[0].data| <= MAX_DATA && SendAll(s, k, After(s, k, st, rs[0]), rs[1..]).Ok?
    ensures SendAll(s, k, st, rs).value ==
            Encoded(s, k, st, rs[0]) + SendAll(s, k, After(s, k, st, rs[0]), rs[1..]).value
  {
  }

  /** The peer takes the first record off the wire and goes on as the sender did. */
  lemma ReceivesFirst(s: Suite, k: Keys, st: Sender, r: Record, rest: Bytes)
    requires st.Valid() && |r.data| <= MAX_DATA
    ensures ReceiveAll(s, k, st, Encoded(s, k, st, r) + rest) ==
            match ReceiveAll(s, k, After(s, k, st, r), rest)
            case None => None
            case Some(rs) => Some([r] + rs)
  {
    FitsExactly(s, k, st, r);
    ParseInvertsFrame(r.rtype, CipherText(s, k, st, r), rest);
    DecryptInvertsEncrypt(s.cipher, k.cipher, st.iv, Body(s, k, st.seqno, r));
    OpenInvertsBody(s, k, st.seqno, r);
  }

  /** Whatever list of records is sent, the peer recovers exactly that list from the concatenated bytes. */
  lemma {:induction false} RecordStreamRoundTrip(s: Suite, k: Keys, st: Sender, rs: seq<Record>)
    requires st.Valid() && SendAll(s, k, st, rs).Ok?
    ensures ReceiveAll(s, k, st, SendAll(s, k, st, rs).value) == Some(rs)
    decreases |rs|
  {
    if rs != [] {
      var next := After(s, k, st, rs[0]);
      SendsFirst(s, k, st, rs);
      RecordStreamRoundTrip(s, k, next, rs[1..]);
      ReceivesFirst(s, k, st, rs[0], SendAll(s, k, next, rs[1..]).value);
      assert [rs[0]] + rs[1..] == rs;
    }
  }

  /** Hence no two lists of records share their bytes. */
  lemma RecordStreamInjective(s: Suite, k: Keys, st: Sender, rs: seq<Record>, rs': seq<Record>)
    requires st.Valid() && SendAll(s, k, st, rs).Ok? && SendAll(s, k, st, rs) == SendAll(s, k, st, rs')
    ensures rs == rs'
  {
    RecordStreamRoundTrip(s, k, st, rs);
    RecordStreamRoundTrip(s, k, st, rs');
  }

  // ---- The chain is one CBC encryption ----------------------------------------------------

  function SenderAfter(s: Suite, k: Keys, st: Sender, rs: seq<Record>): (t: Sender)
    requires st.Valid()
    ensures t.Valid()
    decreases |rs|
  {
    if rs == [] then st else SenderAfter(s, k, After(s, k, st, rs[0]), rs[1..])
  }

  function Bodies(s: Suite, k: Keys, seqno: nat, rs: seq<Record>): (b: Bytes)
    ensures |b| % BLOCK == 0
    decreases |rs|
  {
    if rs == [] then []
    else
      var head, tail := Body(s, k, seqno, rs[0]), Bodies(s, k, seqno + 1, rs[1..]);
      WholeBlocks(|head|, |tail|);
      head + tail
  }

  function CipherTexts(s: Suite, k: Keys, st: Sender, rs: seq<Record>): (c: Bytes)
    requires st.Valid()
    ensures |c| % BLOCK == 0
    decreases |rs|
  {
    if rs == [] then []
    else
      var head, tail := CipherText(s, k, st, rs[0]), CipherTexts(s, k, After(s, k, st, rs[0]), rs[1..]);
      WholeBlocks(|head|, |tail|);
      head + tail
  }

  /** The ciphertexts of a run are one CBC encryption of its bodies, and the stored IV is its last block. */
  lemma ChainIsOneCbc(s: Suite, k: Keys, st: Sender, rs: seq<Record>)
    requires st.Valid()
    ensures CipherTexts(s, k, st, rs) == Encrypt(s.cipher, k.cipher, st.iv, Bodies(s, k, st.seqno, rs))
    ensures SenderAfter(s, k, st, rs) == Sender(NextIv(st.iv, CipherTexts(s, k, st, rs)), st.seqno + |rs|)
  {
    ChainCipher(s, k, st, rs);
    ChainIv(s, k, st, rs);
  }

  lemma FirstOfBodies(s: Suite, k: Keys, st: Sender, rs: seq<Record>)
    requires st.Valid() && rs != []
    ensures var next := After(s, k, st, rs[0]);
            && Bodies(s, k, st.seqno, rs) == Body(s, k, st.seqno, rs[0]) + Bodies(s, k, st.seqno + 1, rs[1..])
            && CipherTexts(s, k, st, rs) == CipherText(s, k, st, rs[0]) + CipherTexts(s, k, next, rs[1..])
            && next.iv == NextIv(st.iv, CipherText(s, k, st, rs[0])) && next.seqno == st.seqno + 1
  {
  }

  lemma {:induction false} ChainCipher(s: Suite, k: Keys, st: Sender, rs: seq<Record>)
    requires st.Valid()
    ensures CipherTexts(s, k, st, rs) == Encrypt(s.cipher, k.cipher, st.iv, Bodies(s, k, st.seqno, rs))
    decreases |rs|
  {
    if rs != [] {
      FirstOfBodies(s, k, st, rs);
      ChainCipher(s, k, After(s, k, st, rs[0]), rs[1..]);
      EncryptChains(s.cipher, k.cipher, st.iv, Body(s, k, st.seqno, rs[0]), Bodies(s, k, st.seqno + 1, rs[1..]));
    }
  }

  lemma {:induction false} ChainIv(s: Suite, k: Keys, st: Sender, rs: seq<Record>)
    requires st.Valid()
    ensures SenderAfter(s, k, st, rs) == Sender(NextIv(st.iv, CipherTexts(s, k, st, rs)), st.seqno + |rs|)
    decreases |rs|
  {
    if rs != [] {
      FirstOfBodies(s, k, st, rs);
      ChainIv(s, k, After(s, k, st, rs[0]), rs[1..]);
      NextIvChains(st.iv, CipherText(s, k, st, rs[0]), CipherTexts(s, k, After(s, k, st, rs[0]), rs[1..]));
    }
  }
}
