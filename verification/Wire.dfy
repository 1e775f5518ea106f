/** Length-prefixed frames over a byte stream (common/net/net.cpp). */
module Wire {
  import opened Text
  import opened Metadata
  import opened Aead
  import opened PeerProtocol
  import opened PieceFileClass

  const MAX_FRAME: nat := 16 * 1024 * 1024

  /** The length in network byte order. */
  function BigEndian(n: nat): (bytes: Bytes)
    requires n < 0x1_0000_0000
    ensures |bytes| == 4
  {
    [(n / 0x100_0000) as char, (n / 0x1_0000 % 256) as char, (n / 256 % 256) as char, (n % 256) as char]
  }

  function FromBigEndian(bytes: Bytes): nat
    requires |bytes| == 4
  {
    bytes[0] as int * 0x100_0000 + bytes[1] as int * 0x1_0000 + bytes[2] as int * 256 + bytes[3] as int
  }

  /** The most significant byte comes first. */
  lemma BigEndianExact(n: nat)
    requires n < 0x1_0000_0000
    ensures var b := BigEndian(n);
            n == b[0] as int * 16777216 + b[1] as int * 65536 + b[2] as int * 256 + b[3] as int
  {
    BigEndianRoundTrip(n);
  }

  lemma BigEndianRoundTrip(n: nat)
    requires n < 0x1_0000_0000
    ensures FromBigEndian(BigEndian(n)) == n
  {
    var a, b := n / 0x1_0000, n / 256;
    assert n / 0x100_0000 == a / 256 && a == b / 256;
    assert n == b * 256 + n % 256 && b == a * 256 + b % 256 && a == a / 256 * 256 + a % 256;
    assert BigEndian(n)[0] as int == a / 256 && BigEndian(n)[1] as int == a % 256;
    assert BigEndian(n)[2] as int == b % 256 && BigEndian(n)[3] as int == n % 256;
  }

  function Frame(payload: Bytes): Bytes
    requires |payload| <= MAX_FRAME
  {
    BigEndian(|payload|) + payload
  }

  /** The first frame of a stream and what follows it; None if it is oversized or incomplete. */
  function FirstFrame(stream: Bytes): Option<(Bytes, Bytes)> {
    if |stream| < 4 then None
    else
      var length := FromBigEndian(stream[..4]);
      if length > MAX_FRAME || |stream| < 4 + length then None
      else Some((stream[4..4 + length], stream[4 + length..]))
  }

  lemma FirstFrameOfFrame(payload: Bytes, rest: Bytes)
    requires |payload| <= MAX_FRAME
    ensures FirstFrame(Frame(payload) + rest) == Some((payload, rest))
  {
    hide BigEndian, FromBigEndian;
    var stream := Frame(payload) + rest;
    BigEndianRoundTrip(|payload|);
    assert stream[..4] == BigEndian(|payload|);
    assert stream[4..4 + |payload|] == payload && stream[4 + |payload|..] == rest;
  }

  ghost predicate Sendable(payloads: seq<Bytes>) {
    forall payload | payload in payloads :: |payload| <= MAX_FRAME
  }

  /** The bytes of several frames one after another. */
  ghost function Stream(payloads: seq<Bytes>): Bytes
    requires Sendable(payloads)
  {
    if payloads == [] then []
    else
      assert payloads[0] in payloads;
      Frame(payloads[0]) + Stream(payloads[1..])
  }

  lemma StreamNothing(before: Bytes)
    ensures before + Stream([]) == before
  {
  }

  lemma {:induction false} StreamMore(payloads: seq<Bytes>, last: Bytes)
    requires Sendable(payloads) && |last| <= MAX_FRAME
    ensures Sendable(payloads + [last]) && Stream(payloads + [last]) == Stream(payloads) + Frame(last)
  {
    hide Frame;
    if payloads == [] {
      assert payloads + [last] == [last] && [last][1..] == [];
      assert Frame(last) + [] == Frame(last) && [] + Frame(last) == Frame(last);
    } else {
      assert payloads[0] in payloads && forall payload | payload in payloads[1..] :: payload in payloads;
      StreamMore(payloads[1..], last);
      assert (payloads + [last])[1..] == payloads[1..] + [last];
      Regroup(Frame(payloads[0]), Stream(payloads[1..]), Frame(last));
    }
  }

  /** Enough calls that move bytes for the length and for the payload. */
  predicate Suffices(payload: Bytes, io: (seq<IoResult>, seq<IoResult>)) {
    Steady(io.0) && Steady(io.1) && Moves(io.0) >= 4 && Moves(io.1) >= |payload|
  }

  /** A connection as the receiver sees it: the bytes sent and not yet received. */
  class Connection {
    var stream: Bytes

    constructor ()
      ensures stream == []
    {
      stream := [];
    }

    /** `io` is what the successive send calls come back with. */
    method SendAll(data: Bytes, io: seq<IoResult>) returns (ok: bool, ghost sent: nat)
      modifies this
      ensures sent <= |data| && stream == old(stream) + data[..sent]
      ensures ok ==> sent == |data| && data[..sent] == data
      ensures Steady(io) && Moves(io) >= |data| ==> ok
    {
      var done, call := 0, 0;
      while done < |data|
        invariant 0 <= done <= |data| && 0 <= call <= |io|
        invariant stream == old(stream) + data[..done]
        invariant Steady(io) ==> done + Moves(io[call..]) >= Min(Moves(io), |data|)
        decreases |io| - call
      {
        if call == |io| {
          assert io[call..] == [];
          return false, done;
        }
        assert io[call..][1..] == io[call + 1..];
        var result := io[call];
        call := call + 1;
        if result.Interrupted? {
          continue;
        }
        var count := if result.Failed? then 0 else Min(result.count, |data| - done);
        if count == 0 {
          assert result in io;
          return false, done;
        }
        stream := stream + data[done..done + count];
        assert data[..done] + data[done..done + count] == data[..done + count];
        done := done + count;
      }
      assert data[..done] == data;
      return true, done;
    }

    /** Takes exactly `length` bytes off the stream, however the recv calls are cut. */
    method ReceiveAll(length: nat, io: seq<IoResult>) returns (ok: bool, data: Bytes)
      modifies this
      ensures old(stream) == data + stream && |data| <= length
      ensures ok ==> |data| == length
      ensures Steady(io) && Moves(io) >= length && |old(stream)| >= length ==> ok
    {
      data := [];
      var call := 0;
      while |data| < length
        invariant old(stream) == data + stream && |data| <= length && 0 <= call <= |io|
        invariant Steady(io) && |old(stream)| >= length ==> |data| + Moves(io[call..]) >= Min(Moves(io), length)
        decreases |io| - call
      {
        if call == |io| {
          assert io[call..] == [];
          return false, data;
        }
        assert io[call..][1..] == io[call + 1..];
        var result := io[call];
        call := call + 1;
        if result.Interrupted? {
          continue;
        }
        var count := if result.Failed? then 0 else Min(result.count, Min(length - |data|, |stream|));
        if count == 0 {
          assert result in io;
          return false, data;
        }
        assert stream == stream[..count] + stream[count..];
        assert data + (stream[..count] + stream[count..]) == data + stream[..count] + stream[count..];
        data := data + stream[..count];
        stream := stream[count..];
      }
      return true, data;
    }

    /** An oversized payload is refused with nothing sent; a successful send adds exactly one frame. */
    method SendFrame(payload: Bytes, io: seq<IoResult>, moreIo: seq<IoResult>) returns (ok: bool)
      modifies this
      ensures |payload| > MAX_FRAME ==> !ok && stream == old(stream)
      ensures ok ==> stream == old(stream) + Frame(payload)
      ensures |payload| <= MAX_FRAME && Steady(io) && Steady(moreIo) && Moves(io) >= 4 && Moves(moreIo) >= |payload| ==>
              ok
    {
      hide BigEndian;
      if |payload| > MAX_FRAME {
        return false;
      }
      ghost var sent;
      ok, sent := SendAll(BigEndian(|payload|), io);
      if ok {
        ok, sent := SendAll(payload, moreIo);
        assert old(stream) + BigEndian(|payload|) + payload == old(stream) + Frame(payload);
      }
    }

    /** A successful receive takes exactly the first frame; an oversized length is refused. */
    method ReceiveFrame(io: seq<IoResult>, moreIo: seq<IoResult>) returns (ok: bool, payload: Bytes)
      modifies this
      ensures ok ==> FirstFrame(old(stream)) == Some((payload, stream))
      ensures |old(stream)| >= 4 && FromBigEndian(old(stream)[..4]) > MAX_FRAME ==> !ok
      ensures FirstFrame(old(stream)).Some? && Steady(io) && Steady(moreIo) ==>
                Moves(io) >= 4 && Moves(moreIo) >= |FirstFrame(old(stream)).value.0| ==> ok
    {
      hide FromBigEndian;
      var header;
      payload := [];
      ok, header := ReceiveAll(4, io);
      if !ok {
        return;
      }
      assert old(stream)[..4] == header;
      var length := FromBigEndian(header);
      if length > MAX_FRAME {
        return false, payload;
      }
      ghost var rest := stream;
      ok, payload := ReceiveAll(length, moreIo);
      if ok {
        assert old(stream) == header + payload + stream by {
          assert header + (payload + stream) == header + payload + stream;
        }
        assert old(stream)[4..4 + length] == payload && old(stream)[4 + length..] == stream;
      }
    }

    /** However the calls are cut, frames sent one after another make up the stream of their payloads; all of them are
        sent if none is oversized and there are enough steady calls, and an oversized one is never sent. */
    method SendFrames(payloads: seq<Bytes>, io: seq<(seq<IoResult>, seq<IoResult>)>) returns (ok: bool)
      requires |payloads| == |io|
      modifies this
      ensures ok ==> Sendable(payloads) && stream == old(stream) + Stream(payloads)
      ensures Sendable(payloads) && (forall i | 0 <= i < |io| :: Suffices(payloads[i], io[i])) ==> ok
    {
      hide Frame;
      StreamNothing(old(stream));
      for i := 0 to |payloads|
        invariant Sendable(payloads[..i])
        invariant stream == old(stream) + Stream(payloads[..i])
      {
        assert payloads[i] in payloads && payloads[..i + 1] == payloads[..i] + [payloads[i]];
        ok := SendFrame(payloads[i], io[i].0, io[i].1);
        if !ok {
          return;
        }
        StreamMore(payloads[..i], payloads[i]);
        Regroup(old(stream), Stream(payloads[..i]), Frame(payloads[i]));
      }
      assert payloads[..|payloads|] == payloads;
      return true;
    }

    /** For every sequence of payloads and every way both sides' calls are cut, receiving frame after
        frame yields exactly the payloads that were sent. */
    method ReceiveFrames(ghost payloads: seq<Bytes>, ghost rest: Bytes, count: nat,
                         io: seq<(seq<IoResult>, seq<IoResult>)>)
      returns (ok: bool, received: seq<Bytes>)
      requires Sendable(payloads) && stream == Stream(payloads) + rest && count == |payloads| == |io|
      modifies this
      ensures ok ==> received == payloads && stream == rest
      ensures received <= payloads
      ensures (forall i | 0 <= i < |io| :: Suffices(payloads[i], io[i])) ==> ok
    {
      hide Frame;
      received := [];
      for i := 0 to count
        invariant received == payloads[..i]
        invariant stream == Stream(payloads[i..]) + rest
      {
        ghost var ahead := payloads[i..];
        assert ahead[0] == payloads[i] && payloads[i] in payloads && ahead[1..] == payloads[i + 1..];
        assert Frame(ahead[0]) + Stream(ahead[1..]) + rest == Frame(ahead[0]) + (Stream(ahead[1..]) + rest);
        FirstFrameOfFrame(ahead[0], Stream(ahead[1..]) + rest);
        var payload;
        ok, payload := ReceiveFrame(io[i].0, io[i].1);
        if !ok {
          return;
        }
        received := received + [payload];
      }
      assert payloads[count..] == [] && payloads[..count] == payloads;
      return true, received;
    }
  }

  /** The stream determines the payloads. */
  lemma {:induction false} StreamInjective(a: seq<Bytes>, b: seq<Bytes>)
    requires Sendable(a) && Sendable(b) && Stream(a) == Stream(b)
    ensures a == b
  {
    if a != [] && b != [] {
      assert a[0] in a && b[0] in b;
      assert forall payload | payload in a[1..] :: payload in a;
      assert forall payload | payload in b[1..] :: payload in b;
      FirstFrameOfFrame(a[0], Stream(a[1..]));
      FirstFrameOfFrame(b[0], Stream(b[1..]));
      StreamInjective(a[1..], b[1..]);
      assert a == [a[0]] + a[1..] && b == [b[0]] + b[1..];
    }
  }

  /** Every reply a seeder can seal for a valid piece fits in one frame. */
  lemma PieceReplyFits(log: SealLog, key: Bytes, aad: Bytes, plain: Bytes, message: GcmMessage)
    requires MaySeal(log, key, aad, plain, message) && |plain| <= PIECE_SIZE
    ensures |EncodeMessage(B("30"), message)| <= MAX_FRAME == 16777216
  {
    hide ToHex;
    ToHexDigits(message.nonce);
    ToHexDigits(message.ciphertext);
    ToHexDigits(message.tag);
  }
}
