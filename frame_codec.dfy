/**
 * The WebSocket frame codec of WebSocketServer: the server's frame encoder
 * (createWebSocketFrame), the reader of one client frame off the raw input stream
 * (one turn of the loop in handleWebSocketMessages), and the pieces of RFC 6455
 * section 5.2 they are measured against.
 */
module FrameCodec {
  import opened Wrappers
  import opened Bytes

  /**
   * The payload length field of a server frame (mask bit clear): one byte below 126,
   * 126 and 16 bits below 65536, otherwise 127, four zero bytes and the 32 bits of the
   * Java int length. `n >> 8`, `n >> 16`, `n >> 24` are written as repeated division,
   * which is the same for a non-negative int.
   */
  function LengthField(n: nat): (r: seq<byte>)
    requires n < 0x8000_0000
    ensures |r| >= 1 && !HighBit(r[0])
  {
    if n < 126 then [n as byte]
    else if n < 65536 then [126, Low(n / 256), Low(n)]
    else [127, 0, 0, 0, 0, Low(n / 256 / 256 / 256), Low(n / 256 / 256), Low(n / 256), Low(n)]
  }

  /** The frame createWebSocketFrame builds: FIN set, text opcode, unmasked, then the payload. */
  function EncodeFrame(payload: seq<byte>): seq<byte>
    requires |payload| < 0x8000_0000
  {
    [0x81] + LengthField(|payload|) + payload
  }

  /** createWebSocketFrame, writing the frame byte by byte as the Java code does. */
  method CreateFrame(payload: seq<byte>) returns (frame: seq<byte>)
    requires |payload| < 0x8000_0000
    ensures frame == EncodeFrame(payload)
  {
    var n := |payload|;
    frame := [0x81];
    if n < 126 {
      frame := frame + [n as byte];
    } else if n < 65536 {
      frame := frame + [126];
      frame := frame + [Low(n / 256)];
      frame := frame + [Low(n)];
    } else {
      frame := frame + [127];
      frame := frame + [0, 0, 0, 0];
      frame := frame + [Low(n / 256 / 256 / 256)];
      frame := frame + [Low(n / 256 / 256)];
      frame := frame + [Low(n / 256)];
      frame := frame + [Low(n)];
    }
    frame := frame + payload;
  }

  /** A big-endian unsigned number, as the extended length fields of RFC 6455 section 5.2 are read. */
  function BigEndian(b: seq<byte>): nat
    decreases |b|
  {
    if b == [] then 0 else BigEndian(b[..|b| - 1]) * 256 + b[|b| - 1] as nat
  }

  /**
   * The payload length as RFC 6455 section 5.2 defines it, read from the second byte of a
   * frame onwards: the length and the number of bytes the field takes; None if cut short.
   */
  function ParseLength(b: seq<byte>): Option<(nat, nat)> {
    if b == [] then None
    else
      var len7 := Low7(b[0]);
      if len7 < 126 then Some((len7 as nat, 1))
      else if len7 == 126 then (if |b| < 3 then None else Some((BigEndian(b[1..3]), 3)))
      else if |b| < 9 then None
      else Some((BigEndian(b[1..9]), 9))
  }

  lemma Split256(n: nat)
    ensures n == n / 256 * 256 + n % 256
  {
  }

  /** Two bytes, high first, read back as the number below 65536 they were cut from. */
  lemma BigEndianTwo(n: nat)
    requires n < 65536
    ensures BigEndian([Low(n / 256), Low(n)]) == n
  {
    assert BigEndian([Low(n / 256)]) == n / 256 by {
      BigEndianSnoc([], Low(n / 256));
      assert [] + [Low(n / 256)] == [Low(n / 256)];
    }
    BigEndianSnoc([Low(n / 256)], Low(n));
    assert [Low(n / 256)] + [Low(n)] == [Low(n / 256), Low(n)];
    Split256(n);
  }

  lemma BigEndianSnoc(b: seq<byte>, x: byte)
    ensures BigEndian(b + [x]) == BigEndian(b) * 256 + x as nat
  {
    assert (b + [x])[..|b|] == b;
  }

  lemma BigEndianZeros()
    ensures BigEndian([0, 0, 0, 0]) == 0
  {
    var z1: seq<byte> := [0];
    var z2: seq<byte> := [0, 0];
    var z3: seq<byte> := [0, 0, 0];
    var z4: seq<byte> := [0, 0, 0, 0];
    assert z1[..0] == [] && z2[..1] == z1 && z3[..2] == z2 && z4[..3] == z3;
    assert BigEndian(z1) == 0;
    assert BigEndian(z2) == 0;
    assert BigEndian(z3) == 0;
  }

  /** Four zero bytes and the four bytes of a Java int, high first, read back as the int. */
  lemma BigEndianEight(n: nat)
    requires n < 0x8000_0000
    ensures BigEndian([0, 0, 0, 0, Low(n / 256 / 256 / 256), Low(n / 256 / 256), Low(n / 256), Low(n)]) == n
  {
    var q1, q2, q3 := n / 256, n / 256 / 256, n / 256 / 256 / 256;
    var z: seq<byte> := [0, 0, 0, 0];
    BigEndianZeros();
    BigEndianSnoc(z, Low(q3));
    Split256(q2);
    BigEndianSnoc(z + [Low(q3)], Low(q2));
    Split256(q1);
    BigEndianSnoc(z + [Low(q3)] + [Low(q2)], Low(q1));
    Split256(n);
    BigEndianSnoc(z + [Low(q3)] + [Low(q2)] + [Low(q1)], Low(n));
    assert z + [Low(q3)] + [Low(q2)] + [Low(q1)] + [Low(n)]
      == [0, 0, 0, 0, Low(n / 256 / 256 / 256), Low(n / 256 / 256), Low(n / 256), Low(n)];
  }

  /** The field the encoder writes reads back as the payload length, whatever follows it. */
  lemma LengthFieldRoundTrip(n: nat, rest: seq<byte>)
    requires n < 0x8000_0000
    ensures ParseLength(LengthField(n) + rest) == Some((n, |LengthField(n)|))
  {
    var f := LengthField(n);
    var b := f + rest;
    if n < 126 {
    } else if n < 65536 {
      assert b[1..3] == [Low(n / 256), Low(n)];
      BigEndianTwo(n);
    } else {
      assert b[1..9] == f[1..];
      BigEndianEight(n);
    }
  }

  /** The encoder uses the shortest length field RFC 6455 section 5.2 allows for the length. */
  lemma LengthFieldMinimal(n: nat)
    requires n < 0x8000_0000
    ensures |LengthField(n)| == 1 <==> n < 126
    ensures |LengthField(n)| == 3 <==> 126 <= n < 65536
    ensures |LengthField(n)| == 9 <==> 65536 <= n
  {
  }

  /** The bytes one read of up to `n` bytes at `pos` gets: `n` of them, or all that remain. */
  function Take(data: seq<byte>, pos: nat, n: nat): (r: seq<byte>)
    requires pos <= |data|
    ensures |r| == if pos + n <= |data| then n else |data| - pos
    ensures r == data[pos..pos + |r|]
  {
    if pos + n <= |data| then data[pos..pos + n] else data[pos..]
  }

  /** The contents of a freshly allocated Java byte array. */
  function Zeros(n: nat): (r: seq<byte>)
    ensures |r| == n
  {
    seq(n, _ => 0)
  }

  /** An array made by `new byte[n]` holds `Zeros(n)`. */
  lemma ZerosAll(z: seq<byte>)
    requires forall i :: 0 <= i < |z| ==> z[i] == 0
    ensures z == Zeros(|z|)
  {
  }

  /** A fresh `new byte[n]` after one read that got `bytes` into its start. */
  function Padded(bytes: seq<byte>, n: nat): (r: seq<byte>)
    requires |bytes| <= n
    ensures |r| == n
  {
    bytes + Zeros(n - |bytes|)
  }

  /** The masking of RFC 6455 section 5.3: byte i is xor-ed with key byte i mod 4. */
  function Mask(p: seq<byte>, key: seq<byte>): (r: seq<byte>)
    requires |key| == 4
    ensures |r| == |p|
  {
    seq(|p|, i requires 0 <= i < |p| => Xor(p[i], key[i % 4]))
  }

  /** The payload as the loop leaves it: unmasked only when the mask bit was set. */
  function Unmasked(raw: seq<byte>, masked: bool, key: seq<byte>): (r: seq<byte>)
    requires |key| == 4
    ensures |r| == |raw|
  {
    if masked then Mask(raw, key) else raw
  }

  /** Masking is its own inverse, so a client's masked payload unmasks to what it sent. */
  lemma MaskInvolution(p: seq<byte>, key: seq<byte>)
    requires |key| == 4
    ensures Mask(Mask(p, key), key) == p
  {
    var m := Mask(p, key);
    forall i | 0 <= i < |p|
      ensures Mask(m, key)[i] == p[i]
    {
      XorTwice(p[i], key[i % 4]);
    }
  }

  /** `bytes` written into `w` from index `at` on, as InputStream.read(buffer, at, len) writes them. */
  function Overlay(w: seq<byte>, at: nat, bytes: seq<byte>): (r: seq<byte>)
    requires at + |bytes| <= |w|
    ensures |r| == |w|
  {
    w[..at] + bytes + w[at + |bytes|..]
  }

  /** A read into the unfilled part of a fresh array pads a longer prefix. */
  lemma OverlayPadded(filled: seq<byte>, bytes: seq<byte>, n: nat)
    requires |filled| + |bytes| <= n
    ensures Overlay(Padded(filled, n), |filled|, bytes) == Padded(filled + bytes, n)
  {
    var b := Padded(filled, n);
    assert b[..|filled|] == filled;
    assert b[|filled| + |bytes|..] == Zeros(n - |filled| - |bytes|);
  }

  /** Two adjacent slices join into one. */
  lemma SliceJoin(data: seq<byte>, i: nat, j: nat, k: nat)
    requires i <= j <= k <= |data|
    ensures data[i..j] + data[j..k] == data[i..k]
  {
  }

  /** Writing into the first four bytes of a buffer changes its first four bytes only. */
  lemma OverlayWindow(b: seq<byte>, at: nat, bytes: seq<byte>)
    requires at + |bytes| <= 4 <= |b|
    ensures Overlay(b, at, bytes)[..4] == Overlay(b[..4], at, bytes)
    ensures Overlay(b, at, bytes)[4..] == b[4..]
  {
  }

  /** The payload length held in the low seven bits of the second byte, below 126. */
  function ShortLength(b: byte): nat {
    Low7(b) as nat
  }

  /** The 16-bit length that follows length code 126, from bytes 2 and 3 of the buffer. */
  function ExtendedLength(w: seq<byte>): (n: nat)
    requires |w| == 4
    ensures n < 65536
  {
    w[2] as nat * 256 + w[3] as nat
  }

  datatype Frame = Frame(fin: bool, opcode: byte, masked: bool, key: seq<byte>, payload: seq<byte>)

  /** What one turn of the message loop ends with. */
  datatype Step =
    | EndOfStream       // the two-byte header read returned -1
    | Close             // opcode 8: the loop stops, the rest of the frame is not read
    | TooLong           // length code 127: "Payload trop grand" is thrown
    | Message(frame: Frame)

  /**
   * The step, the stream position after it, and bytes 0..3 of the reused 8192-byte buffer
   * (header and extended length), which keep the values of an earlier frame wherever a read
   * came up short.
   */
  datatype Decoded = Decoded(step: Step, next: nat, window: seq<byte>)

  /**
   * One turn of the loop of handleWebSocketMessages on the stream `data` at `pos`, with
   * `window` the first four bytes of the buffer before it.
   */
  function DecodeStep(data: seq<byte>, pos: nat, window: seq<byte>): (d: Decoded)
    requires pos <= |data| && |window| == 4
    ensures pos <= d.next <= |data| && |d.window| == 4
    ensures d.step == EndOfStream <==> pos == |data|
    ensures d.step != EndOfStream ==> pos < d.next
    ensures d.step == Close ==> d.next <= pos + 2
    ensures d.step.Message? ==> |d.step.frame.payload| < 65536 && |d.step.frame.key| == 4
  {
    var head := Take(data, pos, 2);
    if head == [] then Decoded(EndOfStream, pos, window)
    else DecodeHeader(data, pos + |head|, Overlay(window, 0, head))
  }

  /** The dispatch on the first two bytes, now in `w`, with the stream at `at` after them. */
  function DecodeHeader(data: seq<byte>, at: nat, w: seq<byte>): (d: Decoded)
    requires at <= |data| && |w| == 4
    ensures at <= d.next <= |data| && |d.window| == 4
    ensures d.step != EndOfStream
    ensures d.step == Close ==> d.next == at
    ensures d.step.Message? ==> |d.step.frame.payload| < 65536 && |d.step.frame.key| == 4
  {
    if Low4(w[0]) == 8 then Decoded(Close, at, w)
    else if Low7(w[1]) == 127 then Decoded(TooLong, at, w)
    else if Low7(w[1]) == 126 then DecodeExtended(data, at, w)
    else DecodeBody(data, at, w, ShortLength(w[1]))
  }

  /** Length code 126: the next two bytes, read into bytes 2 and 3 of the buffer, are the length. */
  function DecodeExtended(data: seq<byte>, at: nat, w: seq<byte>): (d: Decoded)
    requires at <= |data| && |w| == 4
    ensures at <= d.next <= |data| && |d.window| == 4
    ensures d.step.Message? && |d.step.frame.payload| < 65536 && |d.step.frame.key| == 4
  {
    var ext := Take(data, at, 2);
    var w' := Overlay(w, 2, ext);
    DecodeBody(data, at + |ext|, w', ExtendedLength(w'))
  }

  /**
   * The rest of a data frame once its length is known: the masking key when the mask bit is
   * set (zero bytes where the stream ends), then the payload, zero-padded where the stream
   * ends, unmasked.
   */
  function DecodeBody(data: seq<byte>, at: nat, w: seq<byte>, length: nat): (d: Decoded)
    requires at <= |data| && |w| == 4
    ensures at <= d.next <= |data| && d.window == w
    ensures d.step.Message? && |d.step.frame.payload| == length && |d.step.frame.key| == 4
  {
    var masked := HighBit(w[1]);
    var keyBytes := if masked then Take(data, at, 4) else [];
    var key := Padded(keyBytes, 4);
    var got := Take(data, at + |keyBytes|, length);
    Decoded(Message(Frame(HighBit(w[0]), Low4(w[0]), masked, key, Unmasked(Padded(got, length), masked, key))),
      at + |keyBytes| + |got|, w)
  }

  /**
   * The raw socket input stream: its whole contents and a cursor. A read returns as many of
   * the requested bytes as remain, -1 when none remain, and 0 when none were requested.
   */
  class ByteStream {
    const data: seq<byte>
    var pos: nat

    ghost predicate Valid()
      reads this
    {
      pos <= |data|
    }

    constructor(data: seq<byte>)
      ensures this.data == data && pos == 0 && Valid()
    {
      this.data := data;
      pos := 0;
    }

    /** InputStream.read(buf, off, len). */
    method Read(buf: array<byte>, off: nat, len: nat) returns (n: int)
      requires Valid() && off + len <= buf.Length
      modifies this, buf
      ensures Valid()
      ensures var got := Take(data, old(pos), len);
        pos == old(pos) + |got| &&
        n == (if len > 0 && got == [] then -1 else |got|) &&
        buf[..] == Overlay(old(buf[..]), off, got)
    {
      var got := Take(data, pos, len);
      forall i | 0 <= i < |got| {
        buf[off + i] := got[i];
      }
      assert buf[..] == Overlay(old(buf[..]), off, got);
      pos := pos + |got|;
      n := if len > 0 && got == [] then -1 else |got|;
    }
  }

  /** The unmasking loop of handleWebSocketMessages, in place on the payload array. */
  method Unmask(payload: array<byte>, key: seq<byte>)
    requires |key| == 4
    modifies payload
    ensures payload[..] == Mask(old(payload[..]), key)
  {
    ghost var original := payload[..];
    for i := 0 to payload.Length
      invariant forall j :: 0 <= j < i ==> payload[j] == Xor(original[j], key[j % 4])
      invariant forall j :: i <= j < payload.Length ==> payload[j] == original[j]
    {
      payload[i] := Xor(payload[i], key[i % 4]);
    }
  }

  /** One turn of the loop of handleWebSocketMessages, up to the call of broadcast. */
  method ReadFrame(s: ByteStream, buffer: array<byte>) returns (step: Step)
    requires s.Valid() && buffer.Length == 8192
    modifies s, buffer
    ensures s.Valid()
    ensures var d := DecodeStep(s.data, old(s.pos), old(buffer[..4]));
      step == d.step && s.pos == d.next && buffer[..4] == d.window && buffer[4..] == old(buffer[4..])
  {
    ghost var pos0, window0 := s.pos, buffer[..4];
    var read := s.Read(buffer, 0, 2);
    ghost var head := Take(s.data, pos0, 2);
    OverlayWindow(old(buffer[..]), 0, head);
    if read == -1 {
      return EndOfStream;
    }
    step := ReadHeader(s, buffer);
  }

  /** The part of the loop body after the two-byte header read. */
  method ReadHeader(s: ByteStream, buffer: array<byte>) returns (step: Step)
    requires s.Valid() && buffer.Length == 8192
    modifies s, buffer
    ensures s.Valid()
    ensures var d := DecodeHeader(s.data, old(s.pos), old(buffer[..4]));
      step == d.step && s.pos == d.next && buffer[..4] == d.window && buffer[4..] == old(buffer[4..])
  {
    var opcode := Low4(buffer[0]);
    var payloadLength := Low7(buffer[1]);
    if opcode == 8 {
      return Close;
    }
    if payloadLength == 126 {
      step := ReadExtended(s, buffer);
    } else if payloadLength == 127 {
      step := TooLong;
    } else {
      step := ReadBody(s, buffer[..4], ShortLength(buffer[1]));
    }
  }

  /** The read of the 16-bit length into bytes 2 and 3 of the buffer, then the frame body. */
  method ReadExtended(s: ByteStream, buffer: array<byte>) returns (step: Step)
    requires s.Valid() && buffer.Length == 8192
    modifies s, buffer
    ensures s.Valid()
    ensures var d := DecodeExtended(s.data, old(s.pos), old(buffer[..4]));
      step == d.step && s.pos == d.next && buffer[..4] == d.window && buffer[4..] == old(buffer[4..])
  {
    ghost var w := buffer[..4];
    var read := s.Read(buffer, 2, 2);
    OverlayWindow(old(buffer[..]), 2, Take(s.data, old(s.pos), 2));
    step := ReadBody(s, buffer[..4], ExtendedLength(buffer[..4]));
  }

  /** The masking key, payload and unmasking of one data frame whose length has been read. */
  method ReadBody(s: ByteStream, w: seq<byte>, payloadLength: nat) returns (step: Step)
    requires s.Valid() && |w| == 4
    modifies s
    ensures s.Valid()
    ensures var d := DecodeBody(s.data, old(s.pos), w, payloadLength);
      step == d.step && s.pos == d.next
  {
    var fin := HighBit(w[0]);
    var opcode := Low4(w[0]);
    var masked := HighBit(w[1]);
    var maskingKey := ReadKey(s, masked);
    var payload := ReadPayload(s, payloadLength);
    ghost var raw := payload[..];
    if masked {
      Unmask(payload, maskingKey[..]);
    }
    assert payload[..] == Unmasked(raw, masked, maskingKey[..]);
    step := Message(Frame(fin, opcode, masked, maskingKey[..], payload[..]));
  }

  /** `new byte[4]`, filled by one read when the mask bit is set. */
  method ReadKey(s: ByteStream, masked: bool) returns (key: array<byte>)
    requires s.Valid()
    modifies s
    ensures s.Valid() && fresh(key)
    ensures var keyBytes := if masked then Take(s.data, old(s.pos), 4) else [];
      key[..] == Padded(keyBytes, 4) && s.pos == old(s.pos) + |keyBytes|
  {
    key := new byte[4](_ => 0);
    ZerosAll(key[..]);
    if masked {
      var read := s.Read(key, 0, 4);
    }
  }

  /** `new byte[payloadLength]`, filled by reads until it is full or the stream ends. */
  method ReadPayload(s: ByteStream, payloadLength: nat) returns (payload: array<byte>)
    requires s.Valid()
    modifies s
    ensures s.Valid() && fresh(payload)
    ensures var got := Take(s.data, old(s.pos), payloadLength);
      payload[..] == Padded(got, payloadLength) && s.pos == old(s.pos) + |got|
  {
    ghost var start := s.pos;
    payload := new byte[payloadLength](_ => 0);
    ZerosAll(payload[..]);
    assert payload[..] == Padded([], payloadLength);
    var totalRead := 0;
    while totalRead < payloadLength
      invariant s.Valid() && totalRead <= payloadLength
      invariant s.pos == start + totalRead
      invariant payload[..] == Padded(s.data[start..s.pos], payloadLength)
      invariant totalRead == 0 || totalRead == payloadLength || s.pos == |s.data|
      decreases payloadLength - totalRead
    {
      ghost var filled := s.data[start..s.pos];
      ghost var got := Take(s.data, s.pos, payloadLength - totalRead);
      assert |filled| == totalRead;
      var read := s.Read(payload, totalRead, payloadLength - totalRead);
      assert payload[..] == Padded(filled + got, payloadLength) by {
        OverlayPadded(filled, got, payloadLength);
      }
      assert filled + got == s.data[start..s.pos] by {
        SliceJoin(s.data, start, start + totalRead, s.pos);
      }
      if read == -1 {
        break;
      }
      totalRead := totalRead + read;
    }
    assert Take(s.data, start, payloadLength) == s.data[start..s.pos];
  }
}
