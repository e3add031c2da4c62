/** `message_header<T>`, `message<T>` and `owned_message<T>`'s payload: a
    header (a 32-bit message kind and the `uint32_t` total size) and a body
    that is a LIFO byte stack. */
module NetMessage {
  import opened Bytes
  import opened ByteStack

  /** sizeof(message_header<T>) for a 32-bit message-kind enum: id then size. */
  const HeaderSize: nat := 8

  datatype Header = Header(id: u32, size: u32)

  /** A message by value, as queues hold it and as it crosses the wire. */
  datatype Frame = Frame(header: Header, body: seq<byte>)

  /** A frame whose header is consistent with its body: either it was never
      written to (size 0, no body) or its size counts the header and body. */
  predicate WellFramed(f: Frame) {
    || (f.header.size == 0 && f.body == [])
    || f.header.size == HeaderSize + |f.body|
  }

  /** `message<T>`: the header's two fields and the body vector. */
  class Message {
    var id: u32
    var size: u32
    var body: seq<byte>

    /** A default-constructed message with the given kind: size 0, no body. */
    constructor (id: u32)
      ensures this.id == id && size == 0 && body == []
      ensures WellFramed(Value())
    {
      this.id := id;
      size := 0;
      body := [];
    }

    /** message<T>::size(): header plus body, in bytes. */
    function Size(): (n: nat)
      reads this
      ensures n == HeaderSize + |body|
    {
      HeaderSize + |body|
    }

    function Value(): Frame
      reads this
    {
      Frame(Header(id, size), body)
    }

    /** `msg << data`: the bytes of `data` go on top of the body and the header
        size is reset to size(), truncated to uint32_t. */
    method Push(data: seq<byte>)
      modifies this
      ensures id == old(id)
      ensures body == Pushed(old(body), [data])
      ensures size == Truncate32(Size())
      ensures Size() < TwoTo32 ==> size == Size() && WellFramed(Value())
    {
      body := body + data;
      size := Truncate32(Size());
      assert Pushed(old(body), [data]) == Pushed(old(body), []) + data;
    }

    /** `msg >> data` for a value of `width` bytes: the top `width` bytes come
        off the body and the header size is reset to size(). The source does
        not check the body is long enough; reading below it is undefined. */
    method Pop(width: nat) returns (data: seq<byte>)
      requires width <= |body|
      modifies this
      ensures id == old(id)
      ensures PopAll(old(body), [width]) == Some(([data], body))
      ensures size == Truncate32(Size())
      ensures Size() < TwoTo32 ==> size == Size() && WellFramed(Value())
    {
      var i := |body| - width;
      data := body[i..];
      body := body[..i];
      size := Truncate32(Size());
      assert [width][1..] == [];
      assert PopAll(body, []) == Some(([], body));
      assert [data] + [] == [data];
    }
  }
}
