/**
 * What the frame reader does with the frames RFC 6455 section 5.2 describes: a client's
 * frame reads back as what the client sent, the server's own frames read back under 64 KiB
 * and are refused above it, a close frame stops the reading after its first two bytes, and a
 * payload cut short by the end of the stream is passed on padded: with zeros when it is unmasked,
 * with the key bytes when it is masked.
 */
module FrameProperties {
  import opened Wrappers
  import opened Bytes
  import opened FrameCodec

  /** The key a frame carries: the client's masking key, or the four zero bytes of `new byte[4]`. */
  function KeyOf(key: Option<seq<byte>>): seq<byte> {
    match key
    case Some(k) => k
    case None => Zeros(4)
  }

  predicate ValidKey(key: Option<seq<byte>>) {
    key.Some? ==> |key.value| == 4
  }

  /** The first two bytes, and the 16-bit extended length when the payload is 126 bytes or more. */
  function ClientHeader(b0: byte, masked: bool, n: nat): (r: seq<byte>)
    requires n < 65536
    ensures |r| == (if n < 126 then 2 else 4)
  {
    var m: byte := if masked then 0x80 else 0;
    if n < 126 then [b0, m + n as byte] else [b0, m + 126, Low(n / 256), Low(n)]
  }

  /** The masking key, then the payload, masked with it when there is one. */
  function ClientBody(key: Option<seq<byte>>, payload: seq<byte>): (r: seq<byte>)
    requires ValidKey(key)
    ensures |r| == (if key.Some? then 4 else 0) + |payload|
  {
    match key
    case None => payload
    case Some(k) => k + Mask(payload, k)
  }

  /**
   * A frame as RFC 6455 section 5.2 lays it out, for payloads under 64 KiB: `b0` holds FIN,
   * RSV1-3 and the opcode; a client masks its payload with a 4-byte key.
   */
  function ClientFrame(b0: byte, key: Option<seq<byte>>, payload: seq<byte>): (r: seq<byte>)
    requires |payload| < 65536 && ValidKey(key)
    ensures |r| == (if |payload| < 126 then 2 else 4) + |ClientBody(key, payload)|
  {
    ClientHeader(b0, key.Some?, |payload|) + ClientBody(key, payload)
  }

  lemma SliceOfConcat(data: seq<byte>, at: nat, a: seq<byte>, b: seq<byte>)
    requires at + |a| + |b| <= |data| && data[at..at + |a| + |b|] == a + b
    ensures data[at..at + |a|] == a && data[at + |a|..at + |a| + |b|] == b
  {
    assert data[at..at + |a|] == (a + b)[..|a|];
    assert data[at + |a|..at + |a| + |b|] == (a + b)[|a|..];
  }

  /** The header of a frame under 126 bytes: the mask bit, and the length in the low seven bits. */
  lemma ShortHeader(b0: byte, masked: bool, n: nat)
    requires n < 126
    ensures var h := ClientHeader(b0, masked, n);
      h[0] == b0 && Low7(h[1]) < 126 && ShortLength(h[1]) == n && (HighBit(h[1]) <==> masked)
  {
  }

  /** The header of a frame of 126 bytes or more: length code 126, then the length in 16 bits. */
  lemma MediumHeader(b0: byte, masked: bool, n: nat)
    requires 126 <= n < 65536
    ensures var h := ClientHeader(b0, masked, n);
      h[0] == b0 && Low7(h[1]) == 126 && (HighBit(h[1]) <==> masked) && ExtendedLength(h) == n
  {
    var h := ClientHeader(b0, masked, n);
    Split256(n);
    assert ExtendedLength(h) == h[2] as nat * 256 + h[3] as nat;
  }

  lemma WindowBytes(a: byte, b: byte, window: seq<byte>)
    requires |window| == 4
    ensures var w := [a, b] + window[2..]; |w| == 4 && w[0] == a && w[1] == b
  {
  }

  lemma SliceHead(data: seq<byte>, pos: nat, h: seq<byte>, i: nat)
    requires i < |h| && pos + |h| <= |data| && data[pos..pos + |h|] == h
    ensures data[pos + i] == h[i]
  {
    assert data[pos..pos + |h|][i] == h[i];
  }

  /** The key and the payload of a well-formed body are read back unmasked. */
  lemma DecodeClientBody(data: seq<byte>, at: nat, w: seq<byte>, b0: byte, key: Option<seq<byte>>, payload: seq<byte>)
    requires |w| == 4 && ValidKey(key) && w[0] == b0
    requires (HighBit(w[1])) <==> key.Some?
    requires at + |ClientBody(key, payload)| <= |data|
    requires data[at..at + |ClientBody(key, payload)|] == ClientBody(key, payload)
    ensures DecodeBody(data, at, w, |payload|)
      == Decoded(Message(Frame(HighBit(b0), Low4(b0), key.Some?, KeyOf(key), payload)),
                 at + |ClientBody(key, payload)|, w)
  {
    match key
    case None =>
      assert Take(data, at, |payload|) == payload;
      assert Padded(payload, |payload|) == payload;
    case Some(k) =>
      SliceOfConcat(data, at, k, Mask(payload, k));
      assert Take(data, at, 4) == k;
      assert Padded(k, 4) == k;
      assert Take(data, at + 4, |payload|) == Mask(payload, k);
      assert Padded(Mask(payload, k), |payload|) == Mask(payload, k);
      MaskInvolution(payload, k);
  }

  /** The first two bytes of a frame land in bytes 0 and 1 of the buffer. */
  lemma DecodeStepHeader(data: seq<byte>, pos: nat, window: seq<byte>)
    requires |window| == 4 && pos + 2 <= |data|
    ensures DecodeStep(data, pos, window) == DecodeHeader(data, pos + 2, [data[pos], data[pos + 1]] + window[2..])
  {
    var head := [data[pos], data[pos + 1]];
    assert Take(data, pos, 2) == head;
    assert window[..0] == [];
    assert Overlay(window, 0, head) == head + window[2..];
  }

  /** A header with a length code under 126, other than a close frame, is followed directly by the body. */
  lemma DecodeShortHeader(data: seq<byte>, pos: nat, window: seq<byte>, n: nat)
    requires |window| == 4 && pos + 2 <= |data| && Low4(data[pos]) != 8 && Low7(data[pos + 1]) < 126
    requires ShortLength(data[pos + 1]) == n
    ensures DecodeStep(data, pos, window) == DecodeBody(data, pos + 2, [data[pos], data[pos + 1]] + window[2..], n)
  {
    DecodeStepHeader(data, pos, window);
  }

  /** Length code 126: the next two bytes, in bytes 2 and 3 of the buffer, give the length. */
  lemma DecodeMediumHeader(data: seq<byte>, pos: nat, window: seq<byte>)
    requires |window| == 4 && pos + 4 <= |data| && Low4(data[pos]) != 8 && Low7(data[pos + 1]) == 126
    ensures DecodeStep(data, pos, window)
      == DecodeBody(data, pos + 4, data[pos..pos + 4], ExtendedLength(data[pos..pos + 4]))
  {
    DecodeStepHeader(data, pos, window);
    var w := [data[pos], data[pos + 1]] + window[2..];
    var ext := [data[pos + 2], data[pos + 3]];
    assert Take(data, pos + 2, 2) == ext;
    assert Overlay(w, 2, ext) == data[pos..pos + 4];
  }

  /** A client frame in the stream: its header, then its body. */
  lemma FrameSlices(data: seq<byte>, pos: nat, b0: byte, key: Option<seq<byte>>, payload: seq<byte>)
    requires ValidKey(key) && |payload| < 65536
    requires pos + |ClientFrame(b0, key, payload)| <= |data|
    requires data[pos..pos + |ClientFrame(b0, key, payload)|] == ClientFrame(b0, key, payload)
    ensures var h, body := ClientHeader(b0, key.Some?, |payload|), ClientBody(key, payload);
      |ClientFrame(b0, key, payload)| == |h| + |body| &&
      data[pos..pos + |h|] == h && data[pos + |h|..pos + |h| + |body|] == body
  {
    SliceOfConcat(data, pos, ClientHeader(b0, key.Some?, |payload|), ClientBody(key, payload));
  }

  lemma HeaderBytes(data: seq<byte>, pos: nat, h: seq<byte>)
    requires 2 <= |h| && pos + |h| <= |data| && data[pos..pos + |h|] == h
    ensures data[pos] == h[0] && data[pos + 1] == h[1]
  {
    SliceHead(data, pos, h, 0);
    SliceHead(data, pos, h, 1);
  }

  /** What a frame under 126 bytes at `pos` puts in the stream. */
  lemma ShortFrameBytes(data: seq<byte>, pos: nat, b0: byte, key: Option<seq<byte>>, payload: seq<byte>)
    requires ValidKey(key) && |payload| < 126
    requires pos + |ClientFrame(b0, key, payload)| <= |data|
    requires data[pos..pos + |ClientFrame(b0, key, payload)|] == ClientFrame(b0, key, payload)
    ensures |ClientFrame(b0, key, payload)| == 2 + |ClientBody(key, payload)|
    ensures data[pos] == b0 && Low7(data[pos + 1]) < 126 && ShortLength(data[pos + 1]) == |payload|
    ensures HighBit(data[pos + 1]) <==> key.Some?
    ensures data[pos + 2..pos + 2 + |ClientBody(key, payload)|] == ClientBody(key, payload)
  {
    FrameSlices(data, pos, b0, key, payload);
    HeaderBytes(data, pos, ClientHeader(b0, key.Some?, |payload|));
    ShortHeader(b0, key.Some?, |payload|);
  }

  /** What a frame of 126 bytes or more at `pos` puts in the stream. */
  lemma MediumFrameBytes(data: seq<byte>, pos: nat, b0: byte, key: Option<seq<byte>>, payload: seq<byte>)
    requires ValidKey(key) && 126 <= |payload| < 65536
    requires pos + |ClientFrame(b0, key, payload)| <= |data|
    requires data[pos..pos + |ClientFrame(b0, key, payload)|] == ClientFrame(b0, key, payload)
    ensures |ClientFrame(b0, key, payload)| == 4 + |ClientBody(key, payload)|
    ensures data[pos] == b0 && Low7(data[pos + 1]) == 126 && (HighBit(data[pos + 1]) <==> key.Some?)
    ensures ExtendedLength(data[pos..pos + 4]) == |payload|
    ensures data[pos + 4..pos + 4 + |ClientBody(key, payload)|] == ClientBody(key, payload)
  {
    FrameSlices(data, pos, b0, key, payload);
    HeaderBytes(data, pos, ClientHeader(b0, key.Some?, |payload|));
    MediumHeader(b0, key.Some?, |payload|);
  }

  /** Under 126 bytes: the second byte holds the length. */
  lemma DecodeShortFrame(data: seq<byte>, pos: nat, window: seq<byte>, b0: byte, key: Option<seq<byte>>, payload: seq<byte>)
    requires |window| == 4 && ValidKey(key) && |payload| < 126 && Low4(b0) != 8
    requires pos + 2 + |ClientBody(key, payload)| <= |data|
    requires data[pos] == b0 && Low7(data[pos + 1]) < 126 && ShortLength(data[pos + 1]) == |payload|
    requires HighBit(data[pos + 1]) <==> key.Some?
    requires data[pos + 2..pos + 2 + |ClientBody(key, payload)|] == ClientBody(key, payload)
    ensures DecodeStep(data, pos, window)
      == Decoded(Message(Frame(HighBit(b0), Low4(b0), key.Some?, KeyOf(key), payload)),
                 pos + 2 + |ClientBody(key, payload)|, [data[pos], data[pos + 1]] + window[2..])
  {
    ShortFrameHeader(data, pos, window, b0, key, payload);
    var w := [data[pos], data[pos + 1]] + window[2..];
    WindowBytes(data[pos], data[pos + 1], window);
    ShortFrameBody(data, pos, w, b0, key, payload);
  }

  lemma ShortFrameHeader(data: seq<byte>, pos: nat, window: seq<byte>, b0: byte, key: Option<seq<byte>>, payload: seq<byte>)
    requires |window| == 4 && ValidKey(key) && |payload| < 126 && Low4(b0) != 8
    requires pos + 2 + |ClientBody(key, payload)| <= |data|
    requires data[pos] == b0 && Low7(data[pos + 1]) < 126 && ShortLength(data[pos + 1]) == |payload|
    ensures DecodeStep(data, pos, window) == DecodeBody(data, pos + 2, [data[pos], data[pos + 1]] + window[2..], |payload|)
  {
    DecodeShortHeader(data, pos, window, |payload|);
  }

  lemma ShortFrameBody(data: seq<byte>, pos: nat, w: seq<byte>, b0: byte, key: Option<seq<byte>>, payload: seq<byte>)
    requires |w| == 4 && ValidKey(key) && w[0] == b0 && (HighBit(w[1]) <==> key.Some?)
    requires pos + 2 + |ClientBody(key, payload)| <= |data|
    requires data[pos + 2..pos + 2 + |ClientBody(key, payload)|] == ClientBody(key, payload)
    ensures DecodeBody(data, pos + 2, w, |payload|)
      == Decoded(Message(Frame(HighBit(b0), Low4(b0), key.Some?, KeyOf(key), payload)),
                 pos + 2 + |ClientBody(key, payload)|, w)
  {
    DecodeClientBody(data, pos + 2, w, b0, key, payload);
  }

  /** From 126 bytes on: length code 126 and the 16-bit length after it. */
  lemma DecodeMediumFrame(data: seq<byte>, pos: nat, window: seq<byte>, b0: byte, key: Option<seq<byte>>, payload: seq<byte>)
    requires |window| == 4 && ValidKey(key) && 126 <= |payload| < 65536 && Low4(b0) != 8
    requires pos + 4 + |ClientBody(key, payload)| <= |data|
    requires data[pos] == b0 && Low7(data[pos + 1]) == 126 && (HighBit(data[pos + 1]) <==> key.Some?)
    requires ExtendedLength(data[pos..pos + 4]) == |payload|
    requires data[pos + 4..pos + 4 + |ClientBody(key, payload)|] == ClientBody(key, payload)
    ensures DecodeStep(data, pos, window)
      == Decoded(Message(Frame(HighBit(b0), Low4(b0), key.Some?, KeyOf(key), payload)),
                 pos + 4 + |ClientBody(key, payload)|, data[pos..pos + 4])
  {
    MediumFrameHeader(data, pos, window, |payload|);
    MediumFrameBody(data, pos, b0, key, payload);
  }

  lemma MediumFrameHeader(data: seq<byte>, pos: nat, window: seq<byte>, n: nat)
    requires |window| == 4 && pos + 4 <= |data| && Low4(data[pos]) != 8 && Low7(data[pos + 1]) == 126
    requires ExtendedLength(data[pos..pos + 4]) == n
    ensures DecodeStep(data, pos, window) == DecodeBody(data, pos + 4, data[pos..pos + 4], n)
  {
    DecodeMediumHeader(data, pos, window);
  }

  lemma MediumFrameBody(data: seq<byte>, pos: nat, b0: byte, key: Option<seq<byte>>, payload: seq<byte>)
    requires ValidKey(key) && pos + 4 + |ClientBody(key, payload)| <= |data|
    requires data[pos] == b0 && (HighBit(data[pos + 1]) <==> key.Some?)
    requires data[pos + 4..pos + 4 + |ClientBody(key, payload)|] == ClientBody(key, payload)
    ensures DecodeBody(data, pos + 4, data[pos..pos + 4], |payload|)
      == Decoded(Message(Frame(HighBit(b0), Low4(b0), key.Some?, KeyOf(key), payload)),
                 pos + 4 + |ClientBody(key, payload)|, data[pos..pos + 4])
  {
    var w := data[pos..pos + 4];
    assert w[0] == data[pos] && w[1] == data[pos + 1];
    DecodeClientBody(data, pos + 4, w, b0, key, payload);
  }

  /**
   * Any frame under 64 KiB that is not a close frame, followed by anything, is read as the
   * client sent it: its FIN bit, opcode, mask bit, key and the unmasked payload; the
   * stream then stands at the next frame.
   */
  lemma DecodeClientFrame(data: seq<byte>, pos: nat, window: seq<byte>, b0: byte, key: Option<seq<byte>>, payload: seq<byte>)
    requires |window| == 4 && ValidKey(key) && |payload| < 65536 && Low4(b0) != 8
    requires pos + |ClientFrame(b0, key, payload)| <= |data|
    requires data[pos..pos + |ClientFrame(b0, key, payload)|] == ClientFrame(b0, key, payload)
    ensures DecodeStep(data, pos, window).step
      == Message(Frame(HighBit(b0), Low4(b0), key.Some?, KeyOf(key), payload))
    ensures DecodeStep(data, pos, window).next == pos + |ClientFrame(b0, key, payload)|
  {
    if |payload| < 126 {
      ShortFrameBytes(data, pos, b0, key, payload);
      DecodeShortFrame(data, pos, window, b0, key, payload);
    } else {
      MediumFrameBytes(data, pos, b0, key, payload);
      DecodeMediumFrame(data, pos, window, b0, key, payload);
    }
  }

  /** Under 64 KiB the server's own frame is the unmasked frame of the layout above. */
  lemma EncodeFrameIsClientLayout(payload: seq<byte>)
    requires |payload| < 65536
    ensures EncodeFrame(payload) == ClientFrame(0x81, None, payload)
  {
    var n := |payload|;
    if n < 126 {
      assert 0 + n as byte == n as byte;
    }
  }

  /** The server reads back a frame of its own under 64 KiB: a final text frame with that payload. */
  lemma ServerFrameRoundTrip(payload: seq<byte>, after: seq<byte>, window: seq<byte>)
    requires |payload| < 65536 && |window| == 4
    ensures DecodeStep(EncodeFrame(payload) + after, 0, window).step
      == Message(Frame(true, 1, false, Zeros(4), payload))
    ensures DecodeStep(EncodeFrame(payload) + after, 0, window).next == |EncodeFrame(payload)|
  {
    EncodeFrameIsClientLayout(payload);
    var f := EncodeFrame(payload);
    assert (f + after)[0..|f|] == f;
    DecodeClientFrame(f + after, 0, window, 0x81, None, payload);
  }

  /**
   * From 64 KiB on the server writes length code 127, which its own reader refuses:
   * it cannot read back the frames it writes for long messages.
   */
  lemma LargeServerFrameRefused(payload: seq<byte>, after: seq<byte>, window: seq<byte>)
    requires 65536 <= |payload| < 0x8000_0000 && |window| == 4
    ensures DecodeStep(EncodeFrame(payload) + after, 0, window).step == TooLong
  {
    var data := EncodeFrame(payload) + after;
    assert data[..2] == [0x81, 127];
  }

  /** A close frame ends the reading after its two header bytes, whatever its length and mask say. */
  lemma CloseFrameStops(data: seq<byte>, pos: nat, window: seq<byte>)
    requires |window| == 4 && pos + 2 <= |data| && Low4(data[pos]) == 8
    ensures DecodeStep(data, pos, window) == Decoded(Close, pos + 2, [data[pos], data[pos + 1]] + window[2..])
  {
    assert Take(data, pos, 2) == [data[pos], data[pos + 1]];
  }

  /** A length code of 127 in a frame other than a close frame makes the reader give up. */
  lemma LongLengthRefused(data: seq<byte>, pos: nat, window: seq<byte>)
    requires |window| == 4 && pos + 2 <= |data| && Low4(data[pos]) != 8 && Low7(data[pos + 1]) == 127
    ensures DecodeStep(data, pos, window).step == TooLong
    ensures DecodeStep(data, pos, window).next == pos + 2
  {
    assert Take(data, pos, 2) == [data[pos], data[pos + 1]];
  }

  /**
   * An unmasked frame under 126 bytes whose payload the stream ends inside: the payload is
   * what arrived followed by zero bytes up to the announced length, and the stream is used up,
   * so the next turn of the loop ends it.
   */
  lemma TruncatedPayloadPadded(b0: byte, n: nat, rest: seq<byte>, window: seq<byte>)
    requires |window| == 4 && Low4(b0) != 8 && n < 126 && |rest| < n
    ensures var data := ClientHeader(b0, false, n) + rest;
      DecodeStep(data, 0, window) == Decoded(Message(Frame(HighBit(b0), Low4(b0), false, Zeros(4),
        Padded(rest, n))), |data|, ClientHeader(b0, false, n) + window[2..])
    ensures DecodeStep(ClientHeader(b0, false, n) + rest, |rest| + 2, window).step == EndOfStream
  {
    var h := ClientHeader(b0, false, n);
    var data := h + rest;
    ShortHeader(b0, false, n);
    assert data[0] == h[0] && data[1] == h[1] && data[2..] == rest;
    assert [data[0], data[1]] == h;
    TruncatedFrame(data, window, n);
  }

  /**
   * A masked frame under 126 bytes whose payload the stream ends inside: the zero bytes that pad
   * it are unmasked too, so the payload is what arrived, unmasked, followed by the key bytes.
   */
  lemma TruncatedMaskedPadded(b0: byte, n: nat, key: seq<byte>, rest: seq<byte>, window: seq<byte>)
    requires |window| == 4 && Low4(b0) != 8 && n < 126 && |key| == 4 && |rest| < n
    ensures var data := ClientHeader(b0, true, n) + key + rest;
      DecodeStep(data, 0, window) == Decoded(Message(Frame(HighBit(b0), Low4(b0), true, key,
        Mask(Padded(rest, n), key))), |data|, ClientHeader(b0, true, n) + window[2..])
    ensures DecodeStep(ClientHeader(b0, true, n) + key + rest, |rest| + 6, window).step == EndOfStream
  {
    var h := ClientHeader(b0, true, n);
    var data := h + key + rest;
    ShortHeader(b0, true, n);
    assert data[0] == h[0] && data[1] == h[1];
    assert [data[0], data[1]] == h;
    DecodeShortHeader(data, 0, window, n);
    WindowBytes(data[0], data[1], window);
    assert Take(data, 2, 4) == key;
    assert Padded(key, 4) == key;
    assert Take(data, 6, n) == rest;
  }

  /** What a cut-short masked payload holds: the bytes that arrived unmasked, then key byte `i % 4` at each padded index `i`. */
  lemma MaskedPadding(rest: seq<byte>, n: nat, key: seq<byte>)
    requires |key| == 4 && |rest| <= n
    ensures var p := Mask(Padded(rest, n), key);
      p[..|rest|] == Mask(rest, key) && forall i :: |rest| <= i < n ==> p[i] == key[i % 4]
  {
    var p := Mask(Padded(rest, n), key);
    forall i | |rest| <= i < n
      ensures p[i] == key[i % 4]
    {
      XorZero(key[i % 4]);
    }
    assert p[..|rest|] == Mask(rest, key);
  }

  lemma TruncatedFrame(data: seq<byte>, window: seq<byte>, n: nat)
    requires |window| == 4 && 2 <= |data| < n + 2 && Low4(data[0]) != 8
    requires !HighBit(data[1]) && Low7(data[1]) < 126 && ShortLength(data[1]) == n
    ensures DecodeStep(data, 0, window) == Decoded(Message(Frame(HighBit(data[0]), Low4(data[0]), false, Zeros(4),
        Padded(data[2..], n))), |data|, [data[0], data[1]] + window[2..])
  {
    TruncatedHeader(data, window, n);
    var w := [data[0], data[1]] + window[2..];
    WindowBytes(data[0], data[1], window);
    TruncatedBody(data, w, data[0], n);
  }

  lemma TruncatedHeader(data: seq<byte>, window: seq<byte>, n: nat)
    requires |window| == 4 && 2 <= |data| < n + 2 && Low4(data[0]) != 8
    requires Low7(data[1]) < 126 && ShortLength(data[1]) == n
    ensures DecodeStep(data, 0, window) == DecodeBody(data, 2, [data[0], data[1]] + window[2..], n)
  {
    DecodeShortHeader(data, 0, window, n);
  }

  lemma TruncatedBody(data: seq<byte>, w: seq<byte>, b0: byte, n: nat)
    requires |w| == 4 && w[0] == b0 && !HighBit(w[1]) && 2 <= |data| < n + 2
    ensures DecodeBody(data, 2, w, n)
      == Decoded(Message(Frame(HighBit(b0), Low4(b0), false, Zeros(4), Padded(data[2..], n))), |data|, w)
  {
    assert Padded([], 4) == Zeros(4);
  }
}
