/** Bytes, and flattening a sequence of pieces into one sequence (`b"".join`, `"".join`). */
module Sequences {

  type Byte = b: int | 0 <= b < 256

  type Bytes = seq<Byte>

  function Min(a: int, b: int): int {
    if a <= b then a else b
  }

  function Max(a: int, b: int): int {
    if a <= b then b else a
  }

  function Flatten<T>(pieces: seq<seq<T>>): seq<T> {
    if pieces == [] then [] else pieces[0] + Flatten(pieces[1..])
  }

  lemma {:induction false} FlattenAppend<T>(left: seq<seq<T>>, right: seq<seq<T>>)
    ensures Flatten(left + right) == Flatten(left) + Flatten(right)
  {
    if left == [] {
      assert left + right == right;
    } else {
      assert (left + right)[1..] == left[1..] + right;
      FlattenAppend(left[1..], right);
    }
  }

  lemma FlattenSnoc<T>(pieces: seq<seq<T>>, piece: seq<T>)
    ensures Flatten(pieces + [piece]) == Flatten(pieces) + piece
  {
    FlattenAppend(pieces, [piece]);
    assert Flatten([piece]) == piece + Flatten([piece][1..]);
  }

  /** The first `k` pieces flatten to a prefix of what all of them flatten to. */
  lemma FlattenPrefix<T>(pieces: seq<seq<T>>, k: nat)
    requires k <= |pieces|
    ensures Flatten(pieces[..k]) <= Flatten(pieces)
  {
    assert pieces == pieces[..k] + pieces[k..];
    FlattenAppend(pieces[..k], pieces[k..]);
  }
}
