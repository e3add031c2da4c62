/** The LIFO byte-stack discipline shared by `message<T>::body` and
    `save::data`: `<<` appends the object representation of a value at the
    tail, `>>` takes the same number of bytes back off the tail. A value is
    represented here by its bytes; a fixed-width value of `sizeof(T)` bytes
    is a byte string of that width (for a 32-bit int, `Bytes.IntBytes`). */
module ByteStack {
  import opened Bytes

  /** The stack after pushing each of `values`, first to last. */
  function Pushed(stack: seq<byte>, values: seq<seq<byte>>): seq<byte>
    decreases |values|
  {
    if values == [] then stack
    else Pushed(stack, values[..|values| - 1]) + values[|values| - 1]
  }

  /** Pops of the given widths, first to last: the popped values in pop order
      and the remaining stack, or None once a pop would read before the start
      of the buffer (the source does not check this; it is undefined there). */
  function PopAll(stack: seq<byte>, widths: seq<nat>): Option<(seq<seq<byte>>, seq<byte>)>
    decreases |widths|
  {
    if widths == [] then Some(([], stack))
    else if |stack| < widths[0] then None
    else
      var k := |stack| - widths[0];
      match PopAll(stack[..k], widths[1..])
      case None => None
      case Some(r) => Some(([stack[k..]] + r.0, r.1))
  }

  function Reverse<T>(s: seq<T>): (r: seq<T>)
    ensures |r| == |s|
    ensures forall i :: 0 <= i < |s| ==> r[i] == s[|s| - 1 - i]
  {
    if s == [] then [] else [s[|s| - 1]] + Reverse(s[..|s| - 1])
  }

  function Widths(values: seq<seq<byte>>): (r: seq<nat>)
    ensures |r| == |values|
    ensures forall i :: 0 <= i < |values| ==> r[i] == |values[i]|
  {
    seq(|values|, i requires 0 <= i < |values| => |values[i]|)
  }

  /** Pushing `values` and then popping their widths in reverse order yields
      the values last-pushed first, and leaves exactly the stack underneath,
      whatever is popped afterwards. */
  lemma {:induction false} PopAfterPush(stack: seq<byte>, values: seq<seq<byte>>, widths: seq<nat>)
    ensures PopAll(Pushed(stack, values), Reverse(Widths(values)) + widths)
         == match PopAll(stack, widths)
            case None => None
            case Some(r) => Some((Reverse(values) + r.0, r.1))
    decreases |values|
  {
    if values == [] {
      assert Reverse(Widths(values)) + widths == widths;
      assert Reverse(values) == [];
      match PopAll(stack, widths)
      case None =>
      case Some(r) => assert Reverse(values) + r.0 == r.0;
    } else {
      var n := |values| - 1;
      var init, v := values[..n], values[n];
      var below := Pushed(stack, init);
      var top := below + v;
      assert Pushed(stack, values) == top;
      var ws := Reverse(Widths(values)) + widths;
      assert ws[0] == |v|;
      assert ws[1..] == Reverse(Widths(init)) + widths;
      assert top[..|top| - |v|] == below;
      assert top[|top| - |v|..] == v;
      PopAfterPush(stack, init, widths);
      assert Reverse(values) == [v] + Reverse(init);
      match PopAll(stack, widths)
      case None =>
      case Some(r) =>
        assert [v] + (Reverse(init) + r.0) == Reverse(values) + r.0;
    }
  }

  /** LIFO round trip: popping what was pushed returns it in reverse order and
      restores the stack to its prior contents. */
  lemma PushPopRoundTrip(stack: seq<byte>, values: seq<seq<byte>>)
    ensures PopAll(Pushed(stack, values), Reverse(Widths(values))) == Some((Reverse(values), stack))
  {
    PopAfterPush(stack, values, []);
    assert Reverse(Widths(values)) + [] == Reverse(Widths(values));
    assert Reverse(values) + [] == Reverse(values);
  }

  /** On a stack built from empty, one non-empty pop more than was pushed
      reads before the start of the buffer. */
  lemma PopPastBottom(values: seq<seq<byte>>, width: nat)
    requires width > 0
    ensures PopAll(Pushed([], values), Reverse(Widths(values)) + [width]) == None
  {
    PopAfterPush([], values, [width]);
  }
}
