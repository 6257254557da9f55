/**
 * The ring buffer (ringbuf.c) between one producer and one consumer, either of which may be interrupted by the
 * other between any two accesses of what they share.
 */
module RingBuffer {
  import opened Numbers
  import opened Bits
  import opened Cyclic

  /** x & mask, for a value of type int: two's complement of 32 bits. */
  function Masked(x: int, mask: nat): nat { And(x % 0x1_0000_0000, mask) }

  /** With a mask of k ones this takes the remainder, of negative differences too. */
  lemma MaskedIsMod(x: int, k: nat)
    requires k <= 7
    ensures Masked(x, Pow2(k) - 1) == x % Pow2(k)
  {
    var y := x % 0x1_0000_0000;
    MaskIsMod(y, k);
    PowAdd(k, 32 - k);
    assert k + (32 - k) == 32;
    PowThirtyTwo();
    hide Pow2;
    ModMod(x, Pow2(k), Pow2(32 - k));
  }

  lemma PowThirtyTwo()
    ensures Pow2(32) == 0x1_0000_0000
  {
    assert Pow2(0) == 1 && Pow2(1) == 2 && Pow2(2) == 4 && Pow2(3) == 8 && Pow2(4) == 16;
    hide Pow2;
    PowAdd(4, 4);
    PowAdd(8, 8);
    PowAdd(16, 16);
  }

  /** The number of elements, and the next index, as the code computes them. */
  lemma MaskedPointers(put: nat, get: nat, k: nat, size: nat)
    requires k <= 7 && size == Pow2(k) && put < size && get < size
    ensures Masked(put - get, size - 1) == Distance(get, put, size)
    ensures Masked(put + 1, size - 1) == After(put, size)
  {
    hide Pow2, Masked, And;
    MaskedIsMod(put - get, k);
    MaskedIsMod(put + 1, k);
    if put < get { DivMod(put - get, -1, put - get + size, size); } else { DivMod(put - get, 0, put - get, size); }
    if put + 1 == size { DivMod(put + 1, 1, 0, size); } else { DivMod(put + 1, 0, put + 1, size); }
  }

  /** Where the producer is in ringbuf_put, and the consumer in ringbuf_get. */
  datatype Producer = PutIdle | Storing(c: byte) | Publishing(c: byte)
  datatype Consumer = GetIdle | Loading | Releasing(c: byte)

  class Ring {
    const data: array<byte>
    const mask: nat
    ghost const k: nat
    var putPtr: nat
    var getPtr: nat
    var producer: Producer
    var consumer: Consumer
    /** The bytes for which ringbuf_put returned 1, and those that ringbuf_get returned. */
    ghost var accepted: seq<byte>
    ghost var taken: seq<byte>

    ghost predicate Shape()
      reads this
    {
      && k <= 7 && data.Length == Pow2(k) && mask == data.Length - 1
      && putPtr < data.Length && getPtr < data.Length
    }

    ghost function Contents(): seq<byte>
      reads this, data
      requires Shape()
    {
      Slice(data[..], getPtr, putPtr)
    }

    /**
     * What was accepted and not yet taken is in the buffer; a producer past its test still has room, and a byte that
     * was stored or loaded is still there.
     */
    ghost predicate Valid()
      reads this, data
    {
      && Shape() && taken + Contents() == accepted
      && (producer != PutIdle ==> Distance(getPtr, putPtr, data.Length) < mask)
      && (producer.Publishing? ==> data[putPtr] == producer.c)
      && (consumer != GetIdle ==> getPtr != putPtr)
      && (consumer.Releasing? ==> data[getPtr] == consumer.c)
    }

    /** ringbuf_init, for a size that is a power of two up to 128 */
    constructor (k: nat, size: nat)
      requires k <= 7 && size == Pow2(k)
      ensures Valid() && fresh(data) && data.Length == size
      ensures accepted == [] && taken == [] && producer == PutIdle && consumer == GetIdle
    {
      data := new byte[size](_ => 0);
      mask := size - 1;
      this.k := k;
      putPtr, getPtr := 0, 0;
      producer, consumer, accepted, taken := PutIdle, GetIdle, [], [];
    }

    /** ringbuf_put: the test, which reads the consumer's pointer. */
    method BeginPut(c: byte) returns (ok: bool)
      requires Valid() && producer == PutIdle
      modifies this`producer
      ensures Valid() && ok == (|Contents()| < mask) && ok == (|accepted| < |taken| + mask)
      ensures producer == if ok then Storing(c) else PutIdle
    {
      MaskedPointers(putPtr, getPtr, k, data.Length);
      SliceLength(data[..], getPtr, putPtr);
      hide Masked, Slice;
      if Masked(putPtr - getPtr, mask) == mask {
        return false;
      }
      producer := Storing(c);
      return true;
    }

    /** ringbuf_put: the store, into a slot that holds nothing unread. */
    method Store()
      requires Valid() && producer.Storing?
      modifies this`producer, data
      ensures Valid() && Contents() == old(Contents()) && producer == Publishing(old(producer.c))
    {
      ghost var buf := data[..];
      SliceEnd(buf, getPtr, putPtr, producer.c);
      data[putPtr] := producer.c;
      assert data[..] == buf[putPtr := producer.c];
      hide Slice;
      producer := Publishing(producer.c);
    }

    /** ringbuf_put: the producer's pointer moves on, and the byte is there. */
    method Publish()
      requires Valid() && producer.Publishing?
      modifies this`producer, this`putPtr, this`accepted
      ensures Valid() && producer == PutIdle && accepted == old(accepted) + [old(producer.c)]
    {
      hide Masked, Slice, Pow2;
      ghost var before := Contents();
      MaskedPointers(putPtr, getPtr, k, data.Length);
      SliceEnd(data[..], getPtr, putPtr, producer.c);
      accepted := accepted + [producer.c];
      putPtr := Masked(putPtr + 1, mask);
      producer := PutIdle;
      assert Contents() == before + [data[old(putPtr)]];
      assert taken + (before + [data[old(putPtr)]]) == taken + before + [data[old(putPtr)]];
    }

    /** ringbuf_get: the test, which reads the producer's pointer. */
    method BeginGet() returns (ok: bool)
      requires Valid() && consumer == GetIdle
      modifies this`consumer
      ensures Valid() && ok == (Contents() != []) && ok == (|taken| < |accepted|)
      ensures consumer == if ok then Loading else GetIdle
    {
      MaskedPointers(putPtr, getPtr, k, data.Length);
      SliceLength(data[..], getPtr, putPtr);
      hide Masked, Slice;
      if Masked(putPtr - getPtr, mask) > 0 {
        consumer := Loading;
        return true;
      }
      return false;
    }

    /** ringbuf_get: the load. */
    method Load()
      requires Valid() && consumer == Loading
      modifies this`consumer
      ensures Valid() && consumer.Releasing?
    {
      hide Slice;
      consumer := Releasing(data[getPtr]);
    }

    /** ringbuf_get: the consumer's pointer moves on, and the oldest byte is returned. */
    method Release() returns (c: byte)
      requires Valid() && consumer.Releasing?
      modifies this`consumer, this`getPtr, this`taken
      ensures Valid() && consumer == GetIdle && taken == old(taken) + [c] && [c] <= old(Contents())
    {
      hide Masked, Slice, Pow2;
      ghost var before := Contents();
      MaskedPointers(getPtr, getPtr, k, data.Length);
      SliceStart(data[..], getPtr, putPtr);
      c := consumer.c;
      getPtr := Masked(getPtr + 1, mask);
      taken := taken + [c];
      consumer := GetIdle;
      assert before == [c] + Contents();
      assert old(taken) + ([c] + Contents()) == old(taken) + [c] + Contents();
    }

    /** ringbuf_elements, and what it means */
    method Elements() returns (n: nat)
      requires Valid()
      ensures n == |accepted| - |taken| < data.Length
    {
      MaskedPointers(putPtr, getPtr, k, data.Length);
      SliceLength(data[..], getPtr, putPtr);
      hide Masked, Slice;
      n := Masked(putPtr - getPtr, mask);
    }
  }

  /** Whose turn it is; an idle producer starts to put the byte. */
  datatype Turn = Produce(c: byte) | Consume

  /** The two on a queue without a buffer: the bytes accepted, and how many of them are taken. */
  datatype Queue = Queue(producer: Producer, getting: nat, accepted: seq<byte>, taken: nat) {
    /**
     * A put that finds room is accepted with its third step, and one that does not ends with its first; a get takes
     * the oldest byte with its third step if it finds one.
     */
    function Play(turn: Turn, room: nat): Queue {
      match turn
      case Produce(c) => (
        match producer
        case PutIdle => if |accepted| < taken + room then this.(producer := Storing(c)) else this
        case Storing(b) => this.(producer := Publishing(b))
        case Publishing(b) => this.(producer := PutIdle, accepted := accepted + [b])
      )
      case Consume =>
        if getting == 0 then this.(getting := if taken < |accepted| then 1 else 0)
        else if getting == 1 then this.(getting := 2)
        else this.(getting := 0, taken := taken + 1)
    }

    function PlayAll(turns: seq<Turn>, room: nat): Queue
      decreases |turns|
    {
      if turns == [] then this else PlayAll(turns[..|turns| - 1], room).Play(turns[|turns| - 1], room)
    }
  }

  function Step(c: Consumer): nat { if c.GetIdle? then 0 else if c.Loading? then 1 else 2 }

  ghost function QueueOf(r: Ring): Queue
    reads r
  {
    Queue(r.producer, Step(r.consumer), r.accepted, |r.taken|)
  }

  /**
   * However the two are interleaved, they do what they would do on a queue: the bytes accepted are those of the puts
   * that found room, and the bytes taken are those accepted, in order, but for the last few.
   */
  method Run(r: Ring, turns: seq<Turn>) returns (out: seq<byte>)
    requires r.Valid() && r.accepted == [] && r.taken == []
    modifies r, r.data
    ensures r.Valid() && out == r.taken && QueueOf(r) == old(QueueOf(r)).PlayAll(turns, r.mask)
    ensures out <= r.accepted && |r.accepted| < |out| + r.data.Length
  {
    hide Slice;
    out := [];
    var i := 0;
    assert turns[..0] == [];
    while i < |turns|
      invariant 0 <= i <= |turns| && r.Valid() && out == r.taken
      invariant QueueOf(r) == old(QueueOf(r)).PlayAll(turns[..i], r.mask)
    {
      assert turns[..i + 1][..i] == turns[..i];
      SliceLength(r.data[..], r.getPtr, r.putPtr);
      match turns[i] {
        case Produce(c) =>
          match r.producer {
            case PutIdle => var ok := r.BeginPut(c);
            case Storing(_) => r.Store();
            case Publishing(_) => r.Publish();
          }
        case Consume =>
          match r.consumer {
            case GetIdle => var ok := r.BeginGet();
            case Loading => r.Load();
            case Releasing(_) =>
              var c := r.Release();
              out := out + [c];
          }
      }
      i := i + 1;
    }
    assert turns[..i] == turns;
    SliceLength(r.data[..], r.getPtr, r.putPtr);
  }
}
