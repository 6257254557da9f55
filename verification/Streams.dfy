/** Streams of bytes put together from pieces. */
module Streams {
  import opened Numbers

  function Flat(pieces: seq<seq<byte>>): seq<byte> {
    if pieces == [] then [] else pieces[0] + Flat(pieces[1..])
  }

  lemma {:induction false} FlatJoin(a: seq<seq<byte>>, b: seq<seq<byte>>)
    ensures Flat(a + b) == Flat(a) + Flat(b)
  {
    if a == [] {
      assert a + b == b;
    } else {
      assert (a + b)[0] == a[0] && (a + b)[1..] == a[1..] + b;
      FlatJoin(a[1..], b);
    }
  }

  lemma FlatMore(a: seq<seq<byte>>, piece: seq<byte>)
    ensures Flat(a + [piece]) == Flat(a) + piece
  {
    FlatJoin(a, [piece]);
    assert [piece][1..] == [];
    assert Flat([piece]) == piece + Flat([]) == piece;
  }
}
