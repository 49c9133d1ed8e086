/** Bytes, the 32-bit `size_t` of the target, and small sequence vocabulary shared by the models. */
module Bytes {

  type byte = b: int | 0 <= b < 256

  /** `size_t` on the STM32H7 is 32 bits wide, and its sums wrap. */
  const SIZE_MODULUS: nat := 0x1_0000_0000

  type size = n: int | 0 <= n < SIZE_MODULUS

  function AddSize(a: nat, b: nat): size {
    (a + b) % SIZE_MODULUS
  }

  datatype Option<+T> = None | Some(value: T)

  /** `mg_iobuf_del(io, 0, n)`: drop a prefix, never more than there is. */
  function Drop<T>(s: seq<T>, n: nat): seq<T> {
    if n <= |s| then s[n..] else []
  }

  function Flatten<T>(parts: seq<seq<T>>): seq<T> {
    if parts == [] then [] else Flatten(parts[..|parts| - 1]) + parts[|parts| - 1]
  }

  lemma ConcatAssoc<T>(a: seq<T>, b: seq<T>, c: seq<T>)
    ensures (a + b) + c == a + (b + c)
  {
  }

  lemma FlattenSnoc<T>(parts: seq<seq<T>>, last: seq<T>)
    ensures Flatten(parts + [last]) == Flatten(parts) + last
  {
    assert (parts + [last])[..|parts|] == parts;
  }

  lemma {:induction false} FlattenConcat<T>(a: seq<seq<T>>, b: seq<seq<T>>)
    ensures Flatten(a + b) == Flatten(a) + Flatten(b)
    decreases |b|
  {
    if b == [] {
      assert a + b == a;
    } else {
      var front, last := b[..|b| - 1], b[|b| - 1];
      assert a + b == (a + front) + [last];
      FlattenSnoc(a + front, last);
      FlattenConcat(a, front);
    }
  }

  lemma FlattenCons<T>(first: seq<T>, rest: seq<seq<T>>)
    ensures Flatten([first] + rest) == first + Flatten(rest)
  {
    FlattenConcat([first], rest);
    FlattenSnoc([], first);
    assert [first] == [] + [first];
  }
}
