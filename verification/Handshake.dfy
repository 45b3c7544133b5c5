/**
  The handshake: tunnelled flights, the Finished hash, and a sensor-side peer (a specification) that
  re-derives everything from the bytes it sees.
 */
module Handshake {
  import opened Base
  import opened Records
  import KeyDerivation
  import Pkcs1

  const HANDSHAKE: byte := 0x16
  const CHANGE_CIPHER: byte := 0x14
  const FINISHED_LEN := 36
  const RANDOM_LEN := 32

  /** `b[lo:hi]` for non-negative bounds: clipped, never an error. */
  function Slice(b: Bytes, lo: nat, hi: nat): Bytes
    requires lo <= hi
  {
    if |b| <= lo then [] else if |b| < hi then b[lo..] else b[lo..hi]
  }

  /** `b[lo:hi] = part`. */
  function Spliced(b: Bytes, lo: nat, hi: nat, part: Bytes): Bytes
    requires lo <= hi
  {
    Slice(b, 0, lo) + part + (if |b| < hi then [] else b[hi..])
  }

  function Tunnel(payload: Bytes): (t: Bytes)
    ensures |t| == 3 + |payload|
  {
    [0x11] + U16Little(|payload|) + payload
  }

  function ParseTunnel(wire: Bytes): Option<Bytes> {
    if |wire| < 3 || wire[0] != 0x11 || FromU16Little(wire[1..3]) != |wire| - 3 then None else Some(wire[3..])
  }

  /** The tunnel header can be read back exactly when the payload fits its 16-bit length. */
  lemma TunnelRoundTrip(payload: Bytes)
    ensures ParseTunnel(Tunnel(payload)) == Some(payload) <==> |payload| <= 0xffff
  {
    var t := Tunnel(payload);
    assert t[1..3] == U16Little(|payload|) && t[3..] == payload;
    if |payload| <= 0xffff {
      U16LittleRoundTrip(|payload|);
    }
  }

  lemma TunnelBytes(payload: Bytes)
    requires |payload| <= 0xffff
    ensures Tunnel(payload) == [0x11, (|payload| % 256) as byte, (|payload| / 256) as byte] + payload
  {
    assert |payload| / 256 % 256 == |payload| / 256;
  }

  function FrameAll(rs: seq<Record>): Bytes {
    if rs == [] then [] else Frame(rs[0].rtype, rs[0].data) + FrameAll(rs[1..])
  }

  /** A flight, cut back into its records. */
  function ParseRecords(wire: Bytes): Option<seq<Record>>
    decreases |wire|
  {
    if wire == [] then Some([])
    else
      match ParseFrame(wire)
      case None => None
      case Some(p) =>
        match ParseRecords(p.rest)
        case None => None
        case Some(rs) => Some([Record(p.rtype, p.payload)] + rs)
  }

  lemma {:induction false} FlightRoundTrip(rs: seq<Record>)
    requires forall i | 0 <= i < |rs| :: |rs[i].data| <= 0xffff
    ensures ParseRecords(FrameAll(rs)) == Some(rs)
  {
    if rs != [] {
      FlightRoundTrip(rs[1..]);
      ParseInvertsFrame(rs[0].rtype, rs[0].data, FrameAll(rs[1..]));
      assert [rs[0]] + rs[1..] == rs;
    }
  }

  /** The SSLv3 Finished hashes over the handshake messages. */
  function Finished(s: Suite, master: Bytes, messages: Bytes, tag: Bytes): (f: Bytes)
    ensures |f| == FINISHED_LEN
  {
    var m := s.md5.digest(messages + tag + master + Repeat(0x36, 48));
    var h := s.sha1.digest(messages + tag + master + Repeat(0x36, 40));
    s.md5.digest(master + Repeat(0x5c, 48) + m) + s.sha1.digest(master + Repeat(0x5c, 40) + h)
  }

  /** Messages under one of the two hashes of Finished. */
  lemma HashHalfBinds(h: Hash, master: Bytes, pad1: Bytes, pad2: Bytes, tag: Bytes, a: Bytes, b: Bytes)
    returns (x: Bytes, y: Bytes)
    requires a != b
    requires h.digest(master + pad2 + h.digest(a + tag + master + pad1)) ==
             h.digest(master + pad2 + h.digest(b + tag + master + pad1))
    ensures Collision(h, x, y)
  {
    var t := tag + master + pad1;
    x, y := a + tag + master + pad1, b + tag + master + pad1;
    assert x == a + t && y == b + t;
    if |a| == |b| { assert x[..|a|] == a && y[..|a|] == b; }
    var inner, inner' := h.digest(x), h.digest(y);
    if inner != inner' {
      var p := master + pad2;
      x, y := p + inner, p + inner';
      assert x[|p|..] == inner && y[|p|..] == inner';
    }
  }

  /** Two different transcripts with the same Finished value give a collision of MD5 and one of SHA-1. */
  lemma FinishedBindsTranscript(s: Suite, master: Bytes, a: Bytes, b: Bytes, tag: Bytes)
    returns (x: Bytes, y: Bytes, x': Bytes, y': Bytes)
    requires a != b && Finished(s, master, a, tag) == Finished(s, master, b, tag)
    ensures Collision(s.md5, x, y) && Collision(s.sha1, x', y')
  {
    var f, g := Finished(s, master, a, tag), Finished(s, master, b, tag);
    assert f[..16] == g[..16] && f[16..] == g[16..];
    x, y := HashHalfBinds(s.md5, master, Repeat(0x36, 48), Repeat(0x5c, 48), tag, a, b);
    x', y' := HashHalfBinds(s.sha1, master, Repeat(0x36, 40), Repeat(0x5c, 40), tag, a, b);
  }

  /** The hashes bind the master secret: two of them with the same Finished value give both collisions. */
  lemma FinishedBindsMaster(s: Suite, master: Bytes, master': Bytes, messages: Bytes, tag: Bytes)
    returns (x: Bytes, y: Bytes, x': Bytes, y': Bytes)
    requires master != master' && |master| == |master'|
    requires Finished(s, master, messages, tag) == Finished(s, master', messages, tag)
    ensures Collision(s.md5, x, y) && Collision(s.sha1, x', y')
  {
    var f, g := Finished(s, master, messages, tag), Finished(s, master', messages, tag);
    assert f[..16] == g[..16] && f[16..] == g[16..];
    x := master + Repeat(0x5c, 48) + s.md5.digest(messages + tag + master + Repeat(0x36, 48));
    y := master' + Repeat(0x5c, 48) + s.md5.digest(messages + tag + master' + Repeat(0x36, 48));
    x' := master + Repeat(0x5c, 40) + s.sha1.digest(messages + tag + master + Repeat(0x36, 40));
    y' := master' + Repeat(0x5c, 40) + s.sha1.digest(messages + tag + master' + Repeat(0x36, 40));
    assert x[..|master|] == master && y[..|master|] == master';
    assert x'[..|master|] == master && y'[..|master|] == master';
  }

  /**
    One hash of section 5.6.9 of RFC 6101 over what a client says, the pads 48 bytes long under a digest
    of 16 and 40 under one of 20.  The sender tag goes in as the sensor wants it, lowest byte first.
   */
  function StandardFinished(h: Hash, master: Bytes, messages: Bytes): Bytes {
    var pad, client: Bytes := if h.size == 16 then 48 else 40, [0x54, 0x4e, 0x4c, 0x43];
    h.digest(master + seq(pad, _ => 0x5c) + h.digest(messages + client + master + seq(pad, _ => 0x36)))
  }

  /** The Finished message a peer expects: its type, its 24-bit length 36, the MD5 and the SHA-1 hash. */
  function ExpectedFinished(s: Suite, master: Bytes, messages: Bytes): Bytes {
    [20, 0, 0, 36] + StandardFinished(s.md5, master, messages) + StandardFinished(s.sha1, master, messages)
  }

  lemma FinishedIsStandard(s: Suite, master: Bytes, messages: Bytes)
    ensures FinishedMessage(s, master, messages) == ExpectedFinished(s, master, messages)
  {
    HalfIsStandard(s.md5, 48, master, messages);
    HalfIsStandard(s.sha1, 40, master, messages);
    var f, g := StandardFinished(s.md5, master, messages), StandardFinished(s.sha1, master, messages);
    assert [0x14, 0, 0, 0x24] + (f + g) == [20, 0, 0, 36] + f + g;
  }

  lemma HalfIsStandard(h: Hash, pad: nat, master: Bytes, messages: Bytes)
    requires pad == if h.size == 16 then 48 else 40
    ensures StandardFinished(h, master, messages) ==
            h.digest(master + Repeat(0x5c, pad)
                     + h.digest(messages + CLIENT_LABEL + master + Repeat(0x36, pad)))
  {
    var ipad: Bytes, opad: Bytes := seq(pad, _ => 0x36), seq(pad, _ => 0x5c);
    assert Repeat(0x36, pad) == ipad && Repeat(0x5c, pad) == opad;
  }

  /** 0x434c4e54 as a little-endian integer. */
  const CLIENT_LABEL: Bytes := [0x54, 0x4e, 0x4c, 0x43]

  function FinishedMessage(s: Suite, master: Bytes, messages: Bytes): (m: Bytes)
    ensures |m| == 40
  {
    [0x14, 0, 0, 0x24] + Finished(s, master, messages, CLIENT_LABEL)
  }

  function Master(s: Suite, premaster: Bytes, clientRandom: Bytes, serverRandom: Bytes): Bytes {
    KeyDerivation.Prf(s.md5, s.sha1, premaster, clientRandom, serverRandom, 48)
  }

  function KeyBlock(s: Suite, master: Bytes, clientRandom: Bytes, serverRandom: Bytes): (k: Bytes)
    ensures |k| == 136
  {
    KeyDerivation.Prf(s.md5, s.sha1, master, serverRandom, clientRandom, 136)
  }

  /** The 32 random bytes of a hello message, after type, length and version. */
  function HelloRandom(body: Bytes): (r: Bytes)
    requires |body| >= 38
    ensures |r| == RANDOM_LEN
  {
    body[6..38]
  }

  predicate IsHello(r: Record) { r.rtype == HANDSHAKE && |r.data| >= 38 }

  /** The messages a peer extracts from the two flights and its own reply. */
  datatype Transcript = Transcript(hello: Bytes, reply: Bytes, exchange: Bytes, finished: Bytes) {
    function Messages(): Bytes { hello + reply + exchange }
  }

  function ReadTranscript(first: Bytes, reply: Bytes, second: Bytes): (t: Option<Transcript>)
    ensures t.Some? ==> |t.value.hello| >= 38 && |t.value.reply| >= 38
  {
    match (ParseTunnel(first), ParseFrame(reply), ParseTunnel(second))
    case (Some(one), Some(hello), Some(two)) =>
      (match (ParseRecords(one), ParseRecords(two))
       case (Some(ch), Some(rs)) =>
         if |ch| == 1 && IsHello(ch[0]) && |hello.payload| >= 38
            && |rs| == 3 && rs[0].rtype == HANDSHAKE && rs[1] == Record(CHANGE_CIPHER, [1]) && rs[2].rtype == HANDSHAKE
         then Some(Transcript(ch[0].data, hello.payload, rs[0].data, rs[2].data))
         else None
       case _ => None)
    case _ => None
  }

  /**
    The peer, given the premaster it decrypted: it derives the keys from the randoms it saw as section 6
    of RFC 6101 has it, opens the Finished record with sequence number 0 and the client IV, and compares
    the hashes of the messages it saw.
   */
  predicate PeerAccepts(s: Suite, premaster: Bytes, first: Bytes, reply: Bytes, second: Bytes) {
    match ReadTranscript(first, reply, second)
    case None => false
    case Some(t) =>
      var clientRandom, serverRandom := HelloRandom(t.hello), HelloRandom(t.reply);
      var master := KeyDerivation.Expanded(s.md5, s.sha1, premaster, clientRandom + serverRandom, 3);
      var kb := KeyDerivation.Expanded(s.md5, s.sha1, master, serverRandom + clientRandom, 9)[..136];
      ReceiveAll(s, Keys(kb[..20], kb[40..72]), Sender(kb[104..120], 0), Frame(HANDSHAKE, t.finished))
      == Some([Record(HANDSHAKE, ExpectedFinished(s, master, t.hello + t.reply + t.exchange))])
  }

  /** The peer derives what the client derives. */
  lemma DerivesSameKeys(s: Suite, premaster: Bytes, clientRandom: Bytes, serverRandom: Bytes)
    ensures var master := KeyDerivation.Expanded(s.md5, s.sha1, premaster, clientRandom + serverRandom, 3);
            && Master(s, premaster, clientRandom, serverRandom) == master
            && KeyBlock(s, master, clientRandom, serverRandom)
               == KeyDerivation.Expanded(s.md5, s.sha1, master, serverRandom + clientRandom, 9)[..136]
  {
    var master := Master(s, premaster, clientRandom, serverRandom);
    KeyDerivation.PrfIsStandard(s.md5, s.sha1, premaster, clientRandom, serverRandom, 3);
    KeyDerivation.PrfIsStandard(s.md5, s.sha1, master, serverRandom, clientRandom, 9);
    KeyDerivation.PrfIsPrefix(s.md5, s.sha1, master, serverRandom, clientRandom, 136, 144);
  }

  /** A captured ClientHello: one tunnelled handshake record with room for the random. */
  predicate GoodTemplate(template: Bytes) {
    match ParseTunnel(template)
    case None => false
    case Some(one) =>
      match ParseRecords(one)
      case None => false
      case Some(rs) => |rs| == 1 && IsHello(rs[0])
  }

  predicate GoodReply(reply: Bytes) {
    ParseFrame(reply).Some? && |ParseFrame(reply).value.payload| >= 38
  }

  /** The record body of a reply, by the length in its header. */
  function ReplyBody(reply: Bytes): Bytes {
    Slice(reply, 5, 5 + FromBigEndian(Slice(reply, 3, 5)))
  }

  /** The ClientHello record with our random in place of the captured one. */
  function Hello(template: Bytes, clientRandom: Bytes): Bytes {
    Spliced(Slice(template, 3, |template| + 3), 11, 43, clientRandom)
  }

  /** Replacing the random keeps the record a record, and the peer reads the new random out of it. */
  lemma HelloKeepsFrame(template: Bytes, clientRandom: Bytes)
    requires GoodTemplate(template) && |clientRandom| == RANDOM_LEN
    ensures var rec := Hello(template, clientRandom);
            && |rec| == |template| - 3 && |rec| <= 0xffff
            && ParseRecords(rec) == Some([Record(HANDSHAKE, rec[5..])])
            && |rec[5..]| >= 38 && HelloRandom(rec[5..]) == clientRandom
  {
    var captured, rec := template[3..], Hello(template, clientRandom);
    assert Slice(template, 3, |template| + 3) == captured;
    var p := ParseFrame(captured).value;
    assert ParseRecords(captured).value[0] == Record(p.rtype, p.payload);
    OneRecord(captured);
    assert |captured| >= 43;
    assert rec == captured[..11] + clientRandom + captured[43..];
    assert rec[..11] == captured[..11];
    assert rec[3] == rec[..11][3] && rec[4] == rec[..11][4];
    assert captured[3] == captured[..11][3] && captured[4] == captured[..11][4];
    assert rec[3..5] == [rec[3], rec[4]] && captured[3..5] == [captured[3], captured[4]];
    assert rec[0] == captured[..11][0] && rec[1] == captured[..11][1] && rec[2] == captured[..11][2];
    var n := |p.payload|;
    assert p.rtype == HANDSHAKE && |rec| == HEADER + n && FromU16Big(rec[3..5]) == n;
    assert rec[HEADER..HEADER + n] == rec[5..] && rec[HEADER + n..] == [];
    assert ParseFrame(rec) == Some(Parsed(HANDSHAKE, rec[5..], []));
    assert rec[5..][6..38] == rec[11..43] == clientRandom;
    assert ParseRecords([]) == Some([]);
    assert [Record(HANDSHAKE, rec[5..])] + [] == [Record(HANDSHAKE, rec[5..])];
  }

  /** A flight of one record is exactly that record. */
  lemma OneRecord(wire: Bytes)
    requires ParseRecords(wire).Some? && |ParseRecords(wire).value| == 1
    ensures ParseFrame(wire).Some? && ParseFrame(wire).value.rest == []
    ensures |wire| == HEADER + |ParseFrame(wire).value.payload|
  {
    var p := ParseFrame(wire).value;
    assert ParseRecords(wire).value == [Record(p.rtype, p.payload)] + ParseRecords(p.rest).value;
    assert ParseRecords(p.rest).value == [];
  }

  /** The ClientKeyExchange holds the RSA image of the padded premaster, as long as the modulus. */
  ghost predicate CarriesPremaster(exchange: Bytes, modulus: Bytes, premaster: Bytes, padding: Bytes) {
    && |Pkcs1.NonZero(padding)| >= Pkcs1.Needed(|modulus|, premaster)
    && FromLittleEndian(modulus) != 0
    && |exchange| == 4 + |modulus| && exchange[..4] == [0x10, 0, 1, 0]
    && var block := [0, 2] + Pkcs1.NonZero(padding)[..Pkcs1.Needed(|modulus|, premaster)] + [0] + premaster;
       FromBigEndian(exchange[4..]) == Pkcs1.Power(FromBigEndian(block), 0x10001) % FromLittleEndian(modulus)
  }

  datatype Session = Session(first: Bytes, second: Bytes)

  /** The three records of the second flight. */
  function SecondFlight(exchange: Bytes, finished: Bytes): seq<Record> {
    [Record(HANDSHAKE, exchange), Record(CHANGE_CIPHER, [1]), Record(HANDSHAKE, finished)]
  }

  /** The first record the client encrypts, under the keys of this handshake. */
  function FinishedCipher(s: Suite, premaster: Bytes, clientRandom: Bytes, serverRandom: Bytes, messages: Bytes): Bytes
  {
    var master := Master(s, premaster, clientRandom, serverRandom);
    var kb := KeyBlock(s, master, clientRandom, serverRandom);
    CipherText(s, Keys(kb[..20], kb[40..72]), Sender(kb[104..120], 0),
               Record(HANDSHAKE, FinishedMessage(s, master, messages)))
  }

  method FinishedRecord(s: Suite, premaster: Bytes, clientRandom: Bytes, serverRandom: Bytes, messages: Bytes)
    returns (rec: Bytes)
    ensures rec == Frame(HANDSHAKE, FinishedCipher(s, premaster, clientRandom, serverRandom, messages))
    ensures |rec| == 69
  {
    var master := KeyDerivation.ComputePrf(s.md5, s.sha1, premaster, clientRandom, serverRandom, 48);
    var keyblock := KeyDerivation.ComputePrf(s.md5, s.sha1, master.value, serverRandom, clientRandom, 136);
    var st := new SslState(s, keyblock.value);
    ghost var k, st0 := st.ClientKeys(), st.View();
    var finished := [0x14, 0, 0, 0x24] + Finished(s, master.value, messages, CLIENT_LABEL);
    var out := st.EncryptRecord(0x16, finished);
    FinishedSize(s, k, st0, finished);
    rec := out.value;
  }

  /** ClientKeyExchange, ChangeCipherSpec and encrypted Finished, back to back. */
  function SecondFlightBytes(exchange: Bytes, ct: Bytes): (f: Bytes)
    ensures |f| == 5 + |exchange| + 6 + 5 + |ct|
  {
    [0x16, 3, 0] + U16Big(|exchange|) + exchange + [0x14, 3, 0, 0, 1, 1] + Frame(0x16, ct)
  }

  method KeyExchange(modulus: Bytes, premaster: Bytes, padding: Bytes) returns (r: Result<Bytes>)
    requires |Pkcs1.NonZero(padding)| >= Pkcs1.Needed(|modulus|, premaster)
    ensures r.Ok? <==> FromLittleEndian(modulus) != 0 && |modulus| + 4 <= 0xffff
    ensures r.Ok? ==> CarriesPremaster(r.value, modulus, premaster, padding)
  {
    var encrypted := Pkcs1.RsaEncryptReversed(modulus, 0x10001, premaster, padding);
    if encrypted.Err? { return Err(encrypted.error); }
    var exchange := [0x10, 0, 1, 0] + encrypted.value;
    if |exchange| > 0xffff { return Err("key exchange does not fit its record"); }
    assert exchange[..4] == [0x10, 0, 1, 0] && exchange[4..] == encrypted.value;
    return Ok(exchange);
  }

  /**
    The client side of the handshake.  It fails when the modulus is zero or a length does not fit its
    field; otherwise, whatever a sensor answers with a proper ServerHello, the peer accepts.
   */
  method OpenSession(s: Suite, template: Bytes, modulus: Bytes, clientRandom: Bytes, premasterRandom: Bytes,
                     padding: Bytes, reply: Bytes)
    returns (r: Result<Session>)
    requires |clientRandom| == RANDOM_LEN && |premasterRandom| == 46
    requires |Pkcs1.NonZero(padding)| >= Pkcs1.Needed(|modulus|, [3, 0] + premasterRandom)
    ensures r.Ok? <==> (FromLittleEndian(modulus) != 0 && |modulus| <= 65451
                        && |Hello(template, clientRandom)| <= 0xffff)
    ensures r.Ok? && GoodTemplate(template) && GoodReply(reply) ==>
              && PeerAccepts(s, [3, 0] + premasterRandom, r.value.first, reply, r.value.second)
              && var t := ReadTranscript(r.value.first, reply, r.value.second).value;
                 && HelloRandom(t.hello) == clientRandom
                 && CarriesPremaster(t.exchange, modulus, [3, 0] + premasterRandom, padding)
    ensures r.Ok? ==> |r.value.second| == 3 + (|modulus| + 9) + 6 + 69
  {
    var rec := Slice(template, 3, |template| + 3);
    rec := Spliced(rec, 11, 43, clientRandom);
    var hello := Slice(rec, 5, |rec| + 5);
    var premaster := [3, 0] + premasterRandom;
    var made := KeyExchange(modulus, premaster, padding);
    if made.Err? { return Err(made.error); }
    var exchange := made.value;
    var exchangeRecord := [0x16, 3, 0] + U16Big(|exchange|) + exchange;
    if |rec| > 0xffff { return Err("first flight does not fit its tunnel"); }
    var first := Tunnel(rec);

    var replyBody := ReplyBody(reply);
    var serverRandom := Slice(reply, 11, 43);

    var finishedRecord := FinishedRecord(s, premaster, clientRandom, serverRandom, hello + replyBody + exchange);
    var change := [0x14, 3, 0, 0, 1, 1];
    var flight := exchangeRecord + change + finishedRecord;
    ghost var ct := FinishedCipher(s, premaster, clientRandom, serverRandom, hello + replyBody + exchange);
    assert finishedRecord == Frame(0x16, ct);
    assert flight == SecondFlightBytes(exchange, ct);
    assert |exchange| == 4 + |modulus| && |flight| == |modulus| + 84;
    if |flight| > 0xffff { return Err("second flight does not fit its tunnel"); }
    var second := Tunnel(flight);
    r := Ok(Session(first, second));
    if GoodTemplate(template) && GoodReply(reply) {
      SessionAccepted(s, template, premaster, clientRandom, reply, rec, hello, replyBody, serverRandom, exchange, ct);
    }
  }

  /** With a good template and reply, the flight built from the clipped slices is the one the peer expects. */
  lemma SessionAccepted(s: Suite, template: Bytes, premaster: Bytes, clientRandom: Bytes, reply: Bytes,
                        rec: Bytes, hello: Bytes, replyBody: Bytes, serverRandom: Bytes, exchange: Bytes, ct: Bytes)
    requires GoodTemplate(template) && GoodReply(reply) && |clientRandom| == RANDOM_LEN
    requires rec == Hello(template, clientRandom) && hello == Slice(rec, 5, |rec| + 5)
    requires replyBody == ReplyBody(reply)
    requires serverRandom == Slice(reply, 11, 43)
    requires ct == FinishedCipher(s, premaster, clientRandom, serverRandom, hello + replyBody + exchange) && |ct| == 64
    requires |exchange| + 80 <= 0xffff
    ensures var second := Tunnel(SecondFlightBytes(exchange, ct));
            && PeerAccepts(s, premaster, Tunnel(rec), reply, second)
            && ReadTranscript(Tunnel(rec), reply, second).Some?
            && var t := ReadTranscript(Tunnel(rec), reply, second).value;
               HelloRandom(t.hello) == clientRandom && t.exchange == exchange
  {
    var flight := SecondFlightBytes(exchange, ct);
    ReplySlices(reply);
    HelloKeepsFrame(template, clientRandom);
    assert hello == rec[5..];
    FlightsRead(rec, reply, exchange, ct, flight);
    ReadersAccept(s, premaster, Tunnel(rec), reply, Tunnel(flight), Transcript(rec[5..], replyBody, exchange, ct));
  }

  /** Flights that carry the right messages are read back as those messages. */
  lemma FlightsRead(rec: Bytes, reply: Bytes, exchange: Bytes, ct: Bytes, flight: Bytes)
    requires |rec| <= 0xffff && |rec| >= 43 && ParseRecords(rec) == Some([Record(HANDSHAKE, rec[5..])])
    requires GoodReply(reply) && |exchange| <= 0xffff && |flight| <= 0xffff && |ct| <= 0xffff
    requires flight == SecondFlightBytes(exchange, ct)
    ensures ReadTranscript(Tunnel(rec), reply, Tunnel(flight)) ==
            Some(Transcript(rec[5..], ParseFrame(reply).value.payload, exchange, ct))
  {
    TunnelRoundTrip(rec);
    TunnelRoundTrip(flight);
    SecondFlightParses(exchange, ct, flight);
  }

  /** A peer that reads these messages accepts. */
  lemma ReadersAccept(s: Suite, premaster: Bytes, first: Bytes, reply: Bytes, second: Bytes, t: Transcript)
    requires ReadTranscript(first, reply, second) == Some(t)
    requires t.finished == FinishedCipher(s, premaster, HelloRandom(t.hello), HelloRandom(t.reply), t.Messages())
    ensures PeerAccepts(s, premaster, first, reply, second)
  {
    var master := Master(s, premaster, HelloRandom(t.hello), HelloRandom(t.reply));
    var kb := KeyBlock(s, master, HelloRandom(t.hello), HelloRandom(t.reply));
    DerivesSameKeys(s, premaster, HelloRandom(t.hello), HelloRandom(t.reply));
    FinishedIsStandard(s, master, t.Messages());
    FinishedOpens(s, Keys(kb[..20], kb[40..72]), Sender(kb[104..120], 0), FinishedMessage(s, master, t.Messages()));
  }

  /** A Finished message is 40 bytes, so its record is 69. */
  lemma FinishedSize(s: Suite, k: Keys, st: Sender, finished: Bytes)
    requires st.Valid() && |finished| == 40
    ensures |CipherText(s, k, st, Record(0x16, finished))| == 64
  {
  }

  lemma FinishedOpens(s: Suite, k: Keys, st: Sender, finished: Bytes)
    requires st.Valid() && |finished| == 40 && st.seqno == 0
    ensures ReceiveAll(s, k, st, Encoded(s, k, st, Record(0x16, finished))) == Some([Record(0x16, finished)])
  {
    var rs := [Record(0x16, finished)];
    assert SendAll(s, k, After(s, k, st, rs[0]), rs[1..]) == Ok([]);
    assert SendAll(s, k, st, rs) == Ok(Encoded(s, k, st, rs[0]) + []);
    assert Encoded(s, k, st, rs[0]) + [] == Encoded(s, k, st, rs[0]);
    RecordStreamRoundTrip(s, k, st, rs);
  }

  lemma SecondFlightParses(exchange: Bytes, ct: Bytes, flight: Bytes)
    requires |exchange| <= 0xffff && |ct| <= 0xffff
    requires flight == SecondFlightBytes(exchange, ct)
    ensures ParseRecords(flight) == Some(SecondFlight(exchange, ct))
  {
    var rs := SecondFlight(exchange, ct);
    assert FrameAll(rs[2..]) == Frame(0x16, ct) by { assert FrameAll(rs[3..]) == []; }
    assert Frame(CHANGE_CIPHER, [1]) == [0x14, 3, 0, 0, 1, 1];
    assert rs[1..][1..] == rs[2..];
    assert FrameAll(rs[1..]) == [0x14, 3, 0, 0, 1, 1] + Frame(0x16, ct);
    assert FrameAll(rs) == flight;
    FlightRoundTrip(rs);
  }

  /** On a well-formed reply the clipped slices are the record's own parts. */
  lemma ReplySlices(reply: Bytes)
    requires GoodReply(reply)
    ensures var payload := ParseFrame(reply).value.payload;
            && ReplyBody(reply) == payload
            && Slice(reply, 11, 43) == HelloRandom(payload)
  {
    var two, payload := reply[3..5], ParseFrame(reply).value.payload;
    SliceOfSlice(reply, 5, 5 + |payload|, 6, 38);
    assert FromBigEndian(two) == FromU16Big(two) by {
      assert two[..1] == [two[0]] && two[..1][..0] == [];
      assert FromBigEndian(two[..1]) == two[0] as nat;
    }
  }
}
