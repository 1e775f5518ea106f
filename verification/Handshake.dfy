/** The client-tracker handshake and channel (common/net/secure_channel.cpp).

    X25519 and SHA-256 are parameters; Ed25519 is ideal (section 5.1 of RFC 8032): a signature
    verifies under the tracker's pinned key only if an accept run of the tracker made it. */
module Handshake {
  import opened Text
  import opened Aead
  import opened PeerProtocol

  /** Public keys, shared secrets (empty on failure) and SHA-256. */
  datatype Curve = Curve(publicKey: Bytes -> Bytes, shared: (Bytes, Bytes) -> Bytes, sha256: Bytes -> Bytes)

  /** Both sides compute the same secret, and public keys are 32 bytes (section 6.1 of RFC 7748). */
  ghost predicate Agrees(c: Curve) {
    && (forall a, b :: c.shared(a, c.publicKey(b)) == c.shared(b, c.publicKey(a)))
    && (forall a :: |c.publicKey(a)| == 32)
  }

  /** Checks a hello of the expected number of fields; yields the sender's public key. */
  function ParseHello(fields: seq<Bytes>, expected: nat, now: int): Option<Bytes> {
    if |fields| != expected || expected < 4 || fields[0] != B("HELLO") then None
    else
      match (FromHex(fields[1]), FromHex(fields[2]))
      case (Some(publicKey), Some(nonce)) =>
        if |publicKey| == 32 && |nonce| == 16 && IsFresh(fields[3], now) then Some(publicKey) else None
      case _ => None
  }

  function HelloFields(publicKey: Bytes, nonce: Bytes, time: int): Bytes {
    ToHex(publicKey) + Sep('|') + ToHex(nonce) + Sep('|') + DecInt(time)
  }

  function Transcript(clientHello: Bytes, serverFields: Bytes): Bytes {
    B("torrent-handshake-v1") + Sep('|') + clientHello + Sep('|') + serverFields
  }

  function SessionKey(c: Curve, privateKey: Bytes, peerPublic: Bytes, transcript: Bytes): Bytes {
    var shared := c.shared(privateKey, peerPublic);
    if shared == [] then [] else c.sha256(shared + transcript)
  }

  /** One accept call: the hello it received and its own fresh key, nonce and clock. */
  datatype AcceptRun = AcceptRun(hello: Bytes, privateKey: Bytes, nonce: Bytes, now: int) {
    function ServerFields(c: Curve): Bytes {
      HelloFields(c.publicKey(privateKey), nonce, now)
    }

    function SignedText(c: Curve): Bytes {
      Transcript(hello, ServerFields(c))
    }

    /** The client's public key, if the hello passes; only then is the transcript signed. */
    function ClientKey(): Option<Bytes> {
      ParseHello(Split(hello, '|'), 4, now)
    }

    function Key(c: Curve): Bytes
      requires ClientKey().Some?
    {
      SessionKey(c, privateKey, ClientKey().value, SignedText(c))
    }
  }

  function ClientHello(c: Curve, privateKey: Bytes, nonce: Bytes, time: int): Bytes {
    B("HELLO") + Sep('|') + HelloFields(c.publicKey(privateKey), nonce, time)
  }

  /** Every signature (text, signature) there is was made by one of these accept runs. */
  ghost predicate SignedOnlyBy(c: Curve, signed: set<(Bytes, Bytes)>, runs: set<AcceptRun>) {
    forall pair | pair in signed :: exists run :: run in runs && run.ClientKey().Some? && run.SignedText(c) == pair.0
  }

  /** Client side: the session key if the reply checks out, for the hello it sent. */
  function Connect(c: Curve, privateKey: Bytes, hello: Bytes, reply: Bytes, now: int,
                   signed: set<(Bytes, Bytes)>): Option<Bytes> {
    var fields := Split(reply, '|');
    match ParseHello(fields, 5, now)
    case None => None
    case Some(serverPublic) =>
      match FromHex(fields[4])
      case None => None
      case Some(signature) =>
        var text := Transcript(hello, fields[1] + Sep('|') + fields[2] + Sep('|') + fields[3]);
        if |signature| != 64 || (text, signature) !in signed then None
        else
          var key := SessionKey(c, privateKey, serverPublic, text);
          if |key| != 32 then None else Some(key)
  }

  lemma HelloFieldsSplit(publicKey: Bytes, nonce: Bytes, time: int)
    ensures Split(HelloFields(publicKey, nonce, time), '|') == [ToHex(publicKey), ToHex(nonce), DecInt(time)]
  {
    hide Split, ToHex, DecInt;
    ToHexDigits(publicKey);
    ToHexDigits(nonce);
    DecIntParses(time);
    assert !IsHexDigit('|') && !IsDigit('|');
    SplitThree(ToHex(publicKey), ToHex(nonce), DecInt(time), '|');
  }

  lemma ClientHelloSplit(c: Curve, privateKey: Bytes, nonce: Bytes, time: int)
    ensures Split(ClientHello(c, privateKey, nonce, time), '|') ==
            [B("HELLO"), ToHex(c.publicKey(privateKey)), ToHex(nonce), DecInt(time)]
  {
    hide Split, ToHex, DecInt, HelloFields;
    HelloFieldsSplit(c.publicKey(privateKey), nonce, time);
    SplitOne(B("HELLO"), '|');
    SplitConcat(B("HELLO"), '|', HelloFields(c.publicKey(privateKey), nonce, time));
  }

  lemma TranscriptSplit(clientHello: Bytes, serverFields: Bytes)
    ensures Split(Transcript(clientHello, serverFields), '|') ==
            [B("torrent-handshake-v1")] + Split(clientHello, '|') + Split(serverFields, '|')
  {
    hide Split;
    SplitOne(B("torrent-handshake-v1"), '|');
    SplitConcat(B("torrent-handshake-v1"), '|', clientHello);
    SplitConcat(B("torrent-handshake-v1") + ['|'] + clientHello, '|', serverFields);
  }

  /** With four client fields, the transcript determines both hellos. */
  lemma TranscriptInjective(hello: Bytes, fields: Bytes, hello': Bytes, fields': Bytes)
    requires Transcript(hello, fields) == Transcript(hello', fields')
    requires |Split(hello, '|')| == |Split(hello', '|')| == 4
    ensures hello == hello' && fields == fields'
  {
    hide Split, Transcript;
    TranscriptSplit(hello, fields);
    TranscriptSplit(hello', fields');
    var all := Split(Transcript(hello, fields), '|');
    assert all[1..5] == Split(hello, '|') && all[1..5] == Split(hello', '|');
    assert all[5..] == Split(fields, '|') && all[5..] == Split(fields', '|');
    SplitInjective(hello, hello', '|');
    SplitInjective(fields, fields', '|');
  }

  lemma ReplyFields(reply: Bytes)
    requires |Split(reply, '|')| == 5
    ensures var f := Split(reply, '|'); Split(f[1] + Sep('|') + f[2] + Sep('|') + f[3], '|') == [f[1], f[2], f[3]]
  {
    hide Split;
    var f := Split(reply, '|');
    JoinSplit(reply, '|');
    assert f[1] in f && f[2] in f && f[3] in f;
    SplitThree(f[1], f[2], f[3], '|');
  }

  /** If a client connects, then some accept run of the tracker received exactly this client's hello,
      signed the very transcript the client checked, and derived the same session key. */
  lemma HandshakeAgreement(c: Curve, privateKey: Bytes, nonce: Bytes, time: int, reply: Bytes, now: int,
                           signed: set<(Bytes, Bytes)>, runs: set<AcceptRun>) returns (run: AcceptRun)
    requires Agrees(c) && SignedOnlyBy(c, signed, runs)
    requires Connect(c, privateKey, ClientHello(c, privateKey, nonce, time), reply, now, signed).Some?
    ensures run in runs && run.hello == ClientHello(c, privateKey, nonce, time)
    ensures run.ClientKey() == Some(c.publicKey(privateKey))
    ensures Connect(c, privateKey, ClientHello(c, privateKey, nonce, time), reply, now, signed) == Some(run.Key(c))
    ensures var fields := Split(reply, '|');
            && |fields| == 5 && fields == [B("HELLO")] + Split(run.ServerFields(c), '|') + [fields[4]]
            && FromHex(fields[4]).Some? && (run.SignedText(c), FromHex(fields[4]).value) in signed
  {
    hide Split, ToHex, FromHex, DecInt, HelloFields, Transcript, SessionKey, IsFresh;
    var hello, f := ClientHello(c, privateKey, nonce, time), Split(reply, '|');
    var text := Transcript(hello, f[1] + Sep('|') + f[2] + Sep('|') + f[3]);
    var signature := FromHex(f[4]).value;
    run :| run in runs && run.ClientKey().Some? && run.SignedText(c) == (text, signature).0;
    ClientHelloSplit(c, privateKey, nonce, time);
    TranscriptInjective(hello, f[1] + Sep('|') + f[2] + Sep('|') + f[3], run.hello, run.ServerFields(c));
    ReplyFields(reply);
    HelloFieldsSplit(c.publicKey(run.privateKey), run.nonce, run.now);
    HexRoundTrip(c.publicKey(privateKey));
    HexRoundTrip(c.publicKey(run.privateKey));
    var parts := Split(run.ServerFields(c), '|');
    assert parts == [f[1], f[2], f[3]];
    assert f == [B("HELLO")] + parts + [f[4]];
    assert f[1] == ToHex(c.publicKey(run.privateKey));
    SameKey(c, privateKey, run.privateKey, text);
  }

  lemma SameKey(c: Curve, a: Bytes, b: Bytes, text: Bytes)
    requires Agrees(c)
    ensures SessionKey(c, a, c.publicKey(b), text) == SessionKey(c, b, c.publicKey(a), text)
  {
  }

  /** The session key is bound to the shared secret and to the transcript: where SHA-256 does not collide, the same key
      comes only from the same secret and the same transcript. */
  lemma KeyBindsSecret(c: Curve, a: Bytes, pa: Bytes, textA: Bytes, b: Bytes, pb: Bytes, textB: Bytes)
    requires |c.shared(a, pa)| == |c.shared(b, pb)| == 32
    requires forall other | c.sha256(other) == c.sha256(c.shared(a, pa) + textA) :: other == c.shared(a, pa) + textA
    ensures SessionKey(c, a, pa, textA) == SessionKey(c, b, pb, textB) <==>
            c.shared(a, pa) == c.shared(b, pb) && textA == textB
  {
    var x, y := c.shared(a, pa) + textA, c.shared(b, pb) + textB;
    assert x[..32] == c.shared(a, pa) && x[32..] == textA;
    assert y[..32] == c.shared(b, pb) && y[32..] == textB;
  }

  /** So nobody else has the key of a connection: any accept run with another transcript or another shared secret
      derives another key. */
  lemma OthersLackKey(c: Curve, run: AcceptRun, other: AcceptRun)
    requires run.ClientKey().Some? && other.ClientKey().Some?
    requires |c.shared(run.privateKey, run.ClientKey().value)| ==
             |c.shared(other.privateKey, other.ClientKey().value)| == 32
    requires var secret := c.shared(run.privateKey, run.ClientKey().value) + run.SignedText(c);
             forall x | c.sha256(x) == c.sha256(secret) :: x == secret
    requires other.SignedText(c) != run.SignedText(c) ||
             c.shared(other.privateKey, other.ClientKey().value) != c.shared(run.privateKey, run.ClientKey().value)
    ensures other.Key(c) != run.Key(c)
  {
    hide ParseHello, Split, SessionKey;
    KeyBindsSecret(c, run.privateKey, run.ClientKey().value, run.SignedText(c),
                   other.privateKey, other.ClientKey().value, other.SignedText(c));
  }

  /** What accept sends back: its hello fields and its signature. */
  function AcceptReply(c: Curve, run: AcceptRun, signature: Bytes): Bytes {
    B("HELLO") + Sep('|') + run.ServerFields(c) + Sep('|') + ToHex(signature)
  }

  lemma AcceptReplySplit(c: Curve, run: AcceptRun, signature: Bytes)
    ensures Split(AcceptReply(c, run, signature), '|') ==
            [B("HELLO"), ToHex(c.publicKey(run.privateKey)), ToHex(run.nonce), DecInt(run.now), ToHex(signature)]
  {
    hide Split, ToHex, DecInt, HelloFields;
    ToHexDigits(signature);
    assert !IsHexDigit('|');
    HelloFieldsSplit(c.publicKey(run.privateKey), run.nonce, run.now);
    SplitOne(B("HELLO"), '|');
    SplitOne(ToHex(signature), '|');
    SplitConcat(B("HELLO"), '|', run.ServerFields(c));
    SplitConcat(B("HELLO") + Sep('|') + run.ServerFields(c), '|', ToHex(signature));
  }

  const MAX_CLOCK: nat := 0x4000_0000_0000_0000

  /** Hellos as both sides make them are taken by the other side exactly when the clocks are within the window. */
  lemma HelloTaken(fields: seq<Bytes>, publicKey: Bytes, nonce: Bytes, time: nat, now: nat)
    requires 4 <= |fields| && now < MAX_CLOCK
    requires fields[0] == B("HELLO") && fields[1] == ToHex(publicKey) && fields[2] == ToHex(nonce) &&
             fields[3] == DecInt(time)
    ensures ParseHello(fields, |fields|, now) ==
            if |publicKey| == 32 && |nonce| == 16 && now - 300 <= time <= now + 300 then Some(publicKey) else None
  {
    hide ToHex, FromHex, DecInt, IsFresh, ParseU64;
    HexRoundTrip(publicKey);
    HexRoundTrip(nonce);
    DecIntParses(time);
    FreshWindow(DecInt(time), now);
  }

  /** The other direction of the agreement: with an honest client and an honest tracker, clocks within 300 seconds of
      each other and delivery of what was sent, connect succeeds, with the key of the accept run. */
  lemma HandshakeCompletes(c: Curve, privateKey: Bytes, nonce: Bytes, time: nat, run: AcceptRun, signature: Bytes,
                           now: nat, signed: set<(Bytes, Bytes)>)
    requires Agrees(c) && |nonce| == |run.nonce| == 16 && 0 <= run.now < MAX_CLOCK && now < MAX_CLOCK
    requires run.hello == ClientHello(c, privateKey, nonce, time)
    requires run.now - 300 <= time <= run.now + 300 && now - 300 <= run.now <= now + 300
    requires |signature| == 64 && (run.SignedText(c), signature) in signed
    requires c.shared(privateKey, c.publicKey(run.privateKey)) != [] && forall x :: |c.sha256(x)| == 32
    ensures run.ClientKey() == Some(c.publicKey(privateKey))
    ensures Connect(c, privateKey, run.hello, AcceptReply(c, run, signature), now, signed) == Some(run.Key(c))
  {
    hide Split, ToHex, FromHex, DecInt, IsFresh, ParseHello;
    ClientHelloSplit(c, privateKey, nonce, time);
    HelloTaken(Split(run.hello, '|'), c.publicKey(privateKey), nonce, time, run.now);
    AcceptReplySplit(c, run, signature);
    HelloTaken(Split(AcceptReply(c, run, signature), '|'), c.publicKey(run.privateKey), run.nonce, run.now, now);
    HexRoundTrip(signature);
    SameKey(c, privateKey, run.privateKey, run.SignedText(c));
  }

  /** An accept run takes a client's hello, and a client its reply, only with 32-byte keys, 16-byte nonces and clocks
      within 300 seconds. */
  lemma HandshakeIsFresh(c: Curve, privateKey: Bytes, nonce: Bytes, time: nat, run: AcceptRun, signature: Bytes,
                         now: nat, signed: set<(Bytes, Bytes)>)
    requires 0 <= run.now < MAX_CLOCK && now < MAX_CLOCK && run.hello == ClientHello(c, privateKey, nonce, time)
    ensures run.ClientKey().Some? ==>
              && |c.publicKey(privateKey)| == 32 && |nonce| == 16 && run.now - 300 <= time <= run.now + 300
    ensures Connect(c, privateKey, run.hello, AcceptReply(c, run, signature), now, signed).Some? ==>
              && |c.publicKey(run.privateKey)| == 32 && |run.nonce| == 16 && now - 300 <= run.now <= now + 300
              && |Connect(c, privateKey, run.hello, AcceptReply(c, run, signature), now, signed).value| == 32
  {
    hide Split, ToHex, FromHex, DecInt, IsFresh, ParseHello;
    ClientHelloSplit(c, privateKey, nonce, time);
    HelloTaken(Split(run.hello, '|'), c.publicKey(privateKey), nonce, time, run.now);
    AcceptReplySplit(c, run, signature);
    HelloTaken(Split(AcceptReply(c, run, signature), '|'), c.publicKey(run.privateKey), run.nonce, run.now, now);
  }

  // ---------------------------------------------------------------- the sealed channel

  datatype Side = Client | Tracker {
    function SendLabel(): Bytes {
      if Client? then B("client->tracker") else B("tracker->client")
    }

    function ReceiveLabel(): Bytes {
      if Client? then B("tracker->client") else B("client->tracker")
    }

    function Other(): Side {
      if Client? then Tracker else Client
    }
  }

  function SealedFrame(message: GcmMessage): Bytes {
    message.nonce + message.tag + message.ciphertext
  }

  function Receive(log: SealLog, key: Bytes, side: Side, frame: Bytes): Option<Bytes> {
    if |frame| < 28 then None
    else Open(log, key, side.ReceiveLabel(), GcmMessage(frame[..12], frame[28..], frame[12..28]))
  }

  /** What one side seals the other side receives; the sender itself cannot take it for a message
      from the other side, unless the other side really sealed that same message. */
  lemma ChannelRoundTrip(log: SealLog, key: Bytes, side: Side, plain: Bytes, message: GcmMessage)
    requires MaySeal(log, key, side.SendLabel(), plain, message)
    ensures var log' := Seal(log, key, side.SendLabel(), plain, message);
            && Receive(log', key, side.Other(), SealedFrame(message)) == Some(plain)
            && (Receive(log', key, side, SealedFrame(message)).Some? <==>
                Sealed(key, side.Other().SendLabel(), message) in log)
  {
    var frame := SealedFrame(message);
    assert frame[..12] == message.nonce && frame[12..28] == message.tag && frame[28..] == message.ciphertext;
    assert B("client->tracker")[0] != B("tracker->client")[0];
  }

  /** Whatever a side receives was sealed by the other side's label under this session key, in this layout. */
  lemma ReceivedWasSealed(log: SealLog, key: Bytes, side: Side, frame: Bytes)
    returns (message: GcmMessage)
    requires Receive(log, key, side, frame).Some?
    ensures SealedFrame(message) == frame && Sealed(key, side.Other().SendLabel(), message) in log
    ensures message.nonce == frame[..12] && message.tag == frame[12..28] && message.ciphertext == frame[28..]
    ensures Receive(log, key, side, frame) == Some(log[Sealed(key, side.Other().SendLabel(), message)])
  {
    message := GcmMessage(frame[..12], frame[28..], frame[12..28]);
    assert SealedFrame(message) == frame;
  }
}
