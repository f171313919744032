/** Bytes, optional values and a few constants that several parts share. */
module Basics {

  type Byte = b: int | 0 <= b < 256

  /** A value, or nothing: a null pointer, or where an assertion of the original
      would fail. */
  datatype Option<+T> = None | Some(value: T) {
    predicate IsFailure() {
      None?
    }

    function PropagateFailure<U>(): Option<U>
      requires None?
    {
      None
    }

    function Extract(): T
      requires Some?
    {
      value
    }
  }

  /** The message type and number in front of the data of a message, two bytes each. */
  const MSG_OFFSET: nat := 4

  /** What the performance model says of the time a client took. */
  datatype Status = FAST | NORMAL | TOOSLOW

  function Min(a: nat, b: nat): nat {
    if a < b then a else b
  }

  /** `part` stands in `whole` from `pos` on. */
  ghost predicate At<T>(whole: seq<T>, pos: nat, part: seq<T>) {
    pos + |part| <= |whole| && whole[pos..pos + |part|] == part
  }

  lemma AtSplit<T>(whole: seq<T>, pos: nat, a: seq<T>, b: seq<T>)
    requires At(whole, pos, a + b)
    ensures At(whole, pos, a) && At(whole, pos + |a|, b)
  {
    var both := whole[pos..pos + |a + b|];
    assert whole[pos..pos + |a|] == both[..|a|] == a;
    assert whole[pos + |a|..pos + |a| + |b|] == both[|a|..] == b;
  }
}
