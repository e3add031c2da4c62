/** What a connection puts on and takes off the socket: each message is its
    8 header bytes (the header struct copied as is) followed by its body, and
    the reader reassembles messages into the connection's one reusable
    incoming message (`m_msgTemporaryIn`). */
module NetWire {
  import opened Bytes
  import opened NetMessage

  /** The header struct's bytes: the id, then the size, each little-endian. */
  function HeaderBytes(h: Header): (r: seq<byte>)
    ensures |r| == HeaderSize
  {
    LE32(h.id) + LE32(h.size)
  }

  function DecodeHeader(s: seq<byte>): Header
    requires |s| == HeaderSize
  {
    Header(FromLE32(s[..4]), FromLE32(s[4..]))
  }

  lemma DecodeHeaderBytes(h: Header)
    ensures DecodeHeader(HeaderBytes(h)) == h
  {
    var s := HeaderBytes(h);
    assert s[..4] == LE32(h.id);
    assert s[4..] == LE32(h.size);
  }

  /** The bytes a successful write of each frame in turn puts on the wire: the
      header, then the body unless it is empty. */
  function Serialize(fs: seq<Frame>): seq<byte>
  {
    if fs == [] then [] else HeaderBytes(fs[0].header) + fs[0].body + Serialize(fs[1..])
  }

  lemma {:induction false} SerializeAppend(fs: seq<Frame>, f: Frame)
    ensures Serialize(fs + [f]) == Serialize(fs) + HeaderBytes(f.header) + f.body
  {
    if fs == [] {
      assert fs + [f] == [f];
      assert Serialize([f]) == HeaderBytes(f.header) + f.body + Serialize([]);
    } else {
      assert (fs + [f])[1..] == fs[1..] + [f];
      SerializeAppend(fs[1..], f);
    }
  }

  /** std::vector<uint8_t>::resize: keep the prefix, zero-fill any growth. */
  function Resize(b: seq<byte>, n: nat): (r: seq<byte>)
    ensures |r| == n
    ensures n <= |b| ==> r == b[..n]
    ensures n > |b| ==> r[..|b|] == b && forall i :: |b| <= i < n ==> r[i] == 0
  {
    if n <= |b| then b[..n] else b + seq(n - |b|, _ => 0)
  }

  /** What the reader does once a header has arrived into the held message. */
  datatype HeaderStep =
    | Deliver(msg: Frame)      // no body to read: hand the message on
    | AwaitBody(msg: Frame)    // body resized; read exactly that many bytes next
    | Overrun                  // 0 < size < 8: `size - 8` wraps, resize throws, std::terminate ends the process

  /** The header handler as written (p2dNetwork.hpp readHeader): with size 0
      the held body is left as the previous message left it. */
  function OnHeaderAsWritten(held: Frame, h: Header): (step: HeaderStep)
    ensures h.size == 0 ==> step == Deliver(Frame(h, held.body))
    ensures 0 < h.size < HeaderSize ==> step.Overrun?
    ensures HeaderSize <= h.size ==> step == OnHeader(held, h)
  {
    if h.size == 0 then Deliver(Frame(h, held.body))
    else if h.size < HeaderSize then Overrun
    else AwaitBody(Frame(h, Resize(held.body, h.size - HeaderSize)))
  }

  /** The header handler as intended: a size-0 message has no body. */
  function OnHeader(held: Frame, h: Header): (step: HeaderStep)
    ensures h.size == 0 ==> step == Deliver(Frame(h, []))
    ensures 0 < h.size < HeaderSize ==> step.Overrun?
    ensures HeaderSize <= h.size ==> step.AwaitBody? && step.msg.header == h && |step.msg.body| == h.size - HeaderSize
  {
    if h.size == 0 then Deliver(Frame(h, []))
    else if h.size < HeaderSize then Overrun
    else AwaitBody(Frame(h, Resize(held.body, h.size - HeaderSize)))
  }

  /** The messages a reader delivers from `wire`, given the handler for a header
      and starting from the held message `held`; an incomplete message at the
      end (or an overrun) ends the sequence. */
  function DeframeWith(asWritten: bool, wire: seq<byte>, held: Frame): seq<Frame>
    decreases |wire|
  {
    if |wire| < HeaderSize then []
    else
      var h := DecodeHeader(wire[..HeaderSize]);
      var rest := wire[HeaderSize..];
      match (if asWritten then OnHeaderAsWritten(held, h) else OnHeader(held, h))
      case Overrun => []
      case Deliver(m) => [m] + DeframeWith(asWritten, rest, m)
      case AwaitBody(m) =>
        if |rest| < |m.body| then []
        else
          var got := Frame(h, rest[..|m.body|]);
          [got] + DeframeWith(asWritten, rest[|m.body|..], got)
  }

  function DeframeAsWritten(wire: seq<byte>, held: Frame): seq<Frame>
  {
    DeframeWith(true, wire, held)
  }

  function Deframe(wire: seq<byte>, held: Frame): seq<Frame>
  {
    DeframeWith(false, wire, held)
  }

  /** The corrected reader recovers exactly the well-framed messages the
      writer sent, in order, whatever message it held before. */
  lemma {:induction false} DeframeSerialize(fs: seq<Frame>, held: Frame)
    requires forall i :: 0 <= i < |fs| ==> WellFramed(fs[i])
    ensures Deframe(Serialize(fs), held) == fs
    decreases |fs|
  {
    if fs != [] {
      var f := fs[0];
      var tail := Serialize(fs[1..]);
      var wire := Serialize(fs);
      assert wire == HeaderBytes(f.header) + (f.body + tail);
      assert wire[..HeaderSize] == HeaderBytes(f.header);
      DecodeHeaderBytes(f.header);
      var rest := wire[HeaderSize..];
      assert rest == f.body + tail;
      assert rest[..|f.body|] == f.body;
      assert rest[|f.body|..] == tail;
      DeframeSerialize(fs[1..], f);
      assert WellFramed(f);
      if f.header.size == 0 {
        assert rest == tail;
      }
      assert Deframe(wire, held) == [f] + Deframe(tail, f);
      assert [f] + fs[1..] == fs;
    }
  }

  /** The messages the reader as written delivers for `fs`: each size-0
      message carries the body of the message delivered before it (`prev`
      for the first). */
  function Restaled(fs: seq<Frame>, prev: seq<byte>): (r: seq<Frame>)
    ensures |r| == |fs|
    ensures forall i :: 0 <= i < |fs| ==> r[i].header == fs[i].header
    ensures forall i :: 0 <= i < |fs| && fs[i].header.size != 0 ==> r[i] == fs[i]
  {
    if fs == [] then []
    else
      var f := if fs[0].header.size == 0 then Frame(fs[0].header, prev) else fs[0];
      [f] + Restaled(fs[1..], f.body)
  }

  /** The reader as written delivers as many messages as were sent, in
      order, each with its header; a message with a non-zero size arrives
      intact, and a size-0 one arrives with the body of the message
      delivered before it (the held message's for the first). */
  lemma {:induction false} DeframeAsWrittenSerialize(fs: seq<Frame>, held: Frame)
    requires forall i :: 0 <= i < |fs| ==> WellFramed(fs[i])
    ensures DeframeAsWritten(Serialize(fs), held) == Restaled(fs, held.body)
    decreases |fs|
  {
    if fs != [] {
      var f := fs[0];
      var tail := Serialize(fs[1..]);
      var wire := Serialize(fs);
      assert wire == HeaderBytes(f.header) + (f.body + tail);
      assert wire[..HeaderSize] == HeaderBytes(f.header);
      DecodeHeaderBytes(f.header);
      var rest := wire[HeaderSize..];
      assert rest == f.body + tail;
      assert rest[..|f.body|] == f.body;
      assert rest[|f.body|..] == tail;
      assert WellFramed(f);
      if f.header.size == 0 {
        var m := Frame(f.header, held.body);
        assert rest == tail;
        DeframeAsWrittenSerialize(fs[1..], m);
        assert DeframeAsWritten(wire, held) == [m] + DeframeAsWritten(tail, m);
      } else {
        DeframeAsWrittenSerialize(fs[1..], f);
        assert DeframeAsWritten(wire, held) == [f] + DeframeAsWritten(tail, f);
      }
    }
  }

  /** When no message has size 0, the reader as written delivers exactly
      what was sent, as the corrected one does. */
  lemma {:induction false} RestaledNoEmpty(fs: seq<Frame>, prev: seq<byte>)
    requires forall i :: 0 <= i < |fs| ==> fs[i].header.size != 0
    ensures Restaled(fs, prev) == fs
  {
    var r := Restaled(fs, prev);
    assert forall i :: 0 <= i < |fs| ==> r[i] == fs[i];
  }

  /** As written, a size-0 message that follows one with a body is delivered
      carrying the previous message's body. */
  lemma StaleBodyDelivered()
    ensures var first := Frame(Header(1, 12), [1, 2, 3, 4]);
            var second := Frame(Header(2, 0), []);
            && WellFramed(first) && WellFramed(second)
            && DeframeAsWritten(Serialize([first, second]), Frame(Header(0, 0), []))
               == [first, Frame(Header(2, 0), [1, 2, 3, 4])]
  {
    var first := Frame(Header(1, 12), [1, 2, 3, 4]);
    var second := Frame(Header(2, 0), []);
    var empty := Frame(Header(0, 0), []);
    var w2 := HeaderBytes(second.header);
    var wire := HeaderBytes(first.header) + first.body + w2;
    assert Serialize([second]) == w2 by {
      assert Serialize([second]) == HeaderBytes(second.header) + second.body + Serialize([]);
    }
    assert Serialize([first, second]) == wire by {
      assert [first, second][1..] == [second];
    }
    DecodeHeaderBytes(first.header);
    DecodeHeaderBytes(second.header);
    assert wire[..HeaderSize] == HeaderBytes(first.header);
    var rest := wire[HeaderSize..];
    assert rest == first.body + w2;
    assert rest[..4] == first.body;
    assert rest[4..] == w2;
    assert w2[..HeaderSize] == w2;
    assert w2[HeaderSize..] == [];
    var stale := Frame(Header(2, 0), [1, 2, 3, 4]);
    assert DeframeWith(true, w2, first) == [stale] + DeframeWith(true, [], stale);
    assert DeframeWith(true, wire, empty) == [first] + DeframeWith(true, w2, first);
  }
}
