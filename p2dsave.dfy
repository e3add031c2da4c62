/** `p2d::save`: a byte vector used as a stack. Values go on and come off
    the tail with `<<` and `>>`, and a string is stored as its characters
    followed by its length as a 32-bit `int`. */
module P2dSave {
  import opened Bytes
  import opened ByteStack

  /** What putString leaves: the characters, then the length's four bytes. */
  function PutStringOf(data: seq<byte>, s: seq<byte>): (r: seq<byte>)
    requires |s| < 0x8000_0000
    ensures |r| == |data| + |s| + 4
  {
    data + s + IntBytes(|s|)
  }

  /** What getString reads off the top of `data`: the stored length `n`, then
      `n` characters under it (none when `n` is not positive), and what is left.
      None where the source would read before the start of the buffer. */
  function TakeString(data: seq<byte>): Option<(seq<byte>, seq<byte>)>
  {
    if |data| < 4 then None
    else
      var m := |data| - 4;
      var n := ToSigned(FromLE32(data[m..]));
      if n <= 0 then Some(([], data[..m]))
      else if n > m then None
      else Some((data[m - n..m], data[..m - n]))
  }

  /** getString after putString returns the string and restores the data. */
  lemma TakePutString(data: seq<byte>, s: seq<byte>)
    requires |s| < 0x8000_0000
    ensures TakeString(PutStringOf(data, s)) == Some((s, data))
  {
    var r := PutStringOf(data, s);
    var m := |r| - 4;
    assert r[m..] == IntBytes(|s|);
    assert r[..m] == data + s;
    if s != [] {
      assert r[m - |s|..m] == s;
      assert r[..m - |s|] == data;
    } else {
      assert r[..m] == data;
    }
  }

  class Save {
    var data: seq<byte>

    /** save(): empty. */
    constructor ()
      ensures data == []
    {
      data := [];
    }

    /** save(fileData): starts from the given bytes. */
    constructor FromFile(fileData: seq<byte>)
      ensures data == fileData
    {
      data := fileData;
    }

    /** size(): the number of bytes held. */
    function Size(): (n: nat)
      reads this
      ensures n == |data|
    {
      |data|
    }

    /** `s << d`: the bytes of `d` go on the tail. */
    method Push(value: seq<byte>)
      modifies this
      ensures data == Pushed(old(data), [value])
      ensures Size() == old(Size()) + |value|
    {
      data := data + value;
      assert Pushed(old(data), [value]) == Pushed(old(data), []) + value;
    }

    /** `s >> d` for a value of `width` bytes: the tail bytes come off. The
        source does not check that enough bytes are held; reading below the
        start of the buffer is undefined there. */
    method Pop(width: nat) returns (value: seq<byte>)
      requires width <= |data|
      modifies this
      ensures PopAll(old(data), [width]) == Some(([value], data))
      ensures Size() == old(Size()) - width
    {
      var i := |data| - width;
      value := data[i..];
      data := data[..i];
      assert [width][1..] == [];
      assert PopAll(data, []) == Some(([], data));
      assert [value] + [] == [value];
    }

    /** putString: grow the data by the length plus four, copy the characters
        in one by one, then the length. The source holds the length and the
        data size in `int`s and adds them, so both and their sum must stay
        below 2^31. */
    method PutString(s: seq<byte>)
      requires |data| + |s| < 0x8000_0000
      modifies this
      ensures data == PutStringOf(old(data), s)
    {
      var sLen := |s|;
      var size := |data|;
      data := data + seq(sLen + 4, _ => 0);
      var i := 0;
      while i < sLen
        invariant 0 <= i <= sLen && |data| == size + sLen + 4
        invariant data[..size] == old(data)
        invariant forall j :: 0 <= j < i ==> data[size + j] == s[j]
      {
        data := data[size + i := s[i]];
        i := i + 1;
      }
      assert data[..size + sLen] == old(data) + s;
      data := data[..size + sLen] + IntBytes(sLen);
    }

    /** getString: take the length off the tail, then that many characters one
        at a time (they come off last first), and return them reversed. Reading
        below the start of the buffer is undefined in the source. */
    method GetString() returns (s: seq<byte>)
      requires TakeString(data).Some?
      modifies this
      ensures TakeString(old(data)) == Some((s, data))
    {
      ghost var d0 := data;
      var size := |data| - 4;
      var sLen := ToSigned(FromLE32(data[size..]));
      data := data[..size];
      var message: seq<byte> := [];
      var i := 0;
      while i < sLen
        invariant 0 <= i <= (if sLen < 0 then 0 else sLen) <= size
        invariant data == d0[..size - i]
        invariant |message| == i && forall j :: 0 <= j < i ==> message[j] == d0[size - 1 - j]
      {
        var c := data[|data| - 1];
        data := data[..|data| - 1];
        message := message + [c];
        i := i + 1;
      }
      s := Reverse(message);
      if sLen > 0 {
        assert s == d0[size - sLen..size];
      }
    }
  }
}
