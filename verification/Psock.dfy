/** Protosockets (psock.c): reading up to a marker out of TCP segments, and sending until all is acknowledged. */
module Psock {
  import opened Numbers
  import opened Streams

  /** A record that psock_readto is for: it ends with its only marker, or it fills the buffer without one. */
  ghost predicate IsRecord(r: seq<byte>, marker: byte, size: nat) {
    0 < |r| <= size && marker !in r[..|r| - 1] && (r[|r| - 1] == marker || |r| == size)
  }

  /** The records of a stream, as if it had come in one piece. */
  function Records(s: seq<byte>, marker: byte, size: nat): seq<seq<byte>>
    requires size > 0
    decreases |s|
  {
    var n := First(s, marker, size);
    if n == 0 then [] else [s[..n]] + Records(s[n..], marker, size)
  }

  /** The length of the first record, or zero if it is not complete. */
  function First(s: seq<byte>, marker: byte, size: nat): (n: nat)
    ensures n <= |s| && n <= size
  {
    if s == [] || size == 0 then 0
    else if s[0] == marker || size == 1 then 1
    else
      var n := First(s[1..], marker, size - 1);
      if n == 0 then 0 else n + 1
  }

  lemma {:induction false} FirstIsRecord(r: seq<byte>, rest: seq<byte>, marker: byte, size: nat)
    requires IsRecord(r, marker, size)
    ensures First(r + rest, marker, size) == |r|
  {
    var s := r + rest;
    assert s[0] == r[0];
    if |r| > 1 {
      assert r[0] == r[..|r| - 1][0];
      assert s[1..] == r[1..] + rest;
      assert forall i :: 0 <= i < |r| - 2 ==> r[1..][i] == r[..|r| - 1][i + 1];
      FirstIsRecord(r[1..], rest, marker, size - 1);
    }
  }

  lemma {:induction false} NoRecord(s: seq<byte>, marker: byte, size: nat)
    requires |s| < size && marker !in s
    ensures First(s, marker, size) == 0
  {
    if s != [] { NoRecord(s[1..], marker, size - 1); }
  }

  /** A record in front of a stream is its first. */
  lemma RecordsNext(r: seq<byte>, rest: seq<byte>, marker: byte, size: nat)
    requires IsRecord(r, marker, size)
    ensures Records(r + rest, marker, size) == [r] + Records(rest, marker, size)
  {
    FirstIsRecord(r, rest, marker, size);
    assert (r + rest)[..|r|] == r && (r + rest)[|r|..] == rest;
  }

  /** The records received, and behind them those of the rest. */
  lemma {:induction false} RecordsJoin(rs: seq<seq<byte>>, rest: seq<byte>, marker: byte, size: nat)
    requires size > 0 && forall i :: 0 <= i < |rs| ==> IsRecord(rs[i], marker, size)
    ensures Records(Flat(rs) + rest, marker, size) == rs + Records(rest, marker, size)
    decreases |rs|
  {
    if rs == [] {
      assert Flat(rs) + rest == rest;
    } else {
      assert Flat(rs) + rest == rs[0] + (Flat(rs[1..]) + rest);
      RecordsNext(rs[0], Flat(rs[1..]) + rest, marker, size);
      RecordsJoin(rs[1..], rest, marker, size);
    }
  }

  datatype State = None | Acked | Read | BlockedNewData | DataSent

  /** What buf_bufto returns. */
  datatype Found = NotFound | Full | MarkerFound

  class Socket {
    const buffer: array<byte>
    var left: nat
    /** The bytes from readptr on, readlen of them. */
    var unread: seq<byte>
    var state: State
    /** Whether the protothread of psock_readto waits for data. */
    var waiting: bool
    /** The bytes from sendptr on, sendlen of them. */
    var unsent: seq<byte>
    var received: seq<seq<byte>>

    ghost var input: seq<byte>
    ghost var acked: seq<byte>
    ghost var outstanding: seq<byte>

    /** The part of the next record that is in the buffer. */
    ghost function Partial(): seq<byte>
      reads this, buffer
      requires left <= buffer.Length
    {
      buffer[..buffer.Length - left]
    }

    /** What has come in is in the records received, the buffer, and the segment being read. */
    ghost predicate Reading(marker: byte)
      reads this, buffer
    {
      && buffer.Length > 0 && left <= buffer.Length
      && (forall i :: 0 <= i < |received| ==> IsRecord(received[i], marker, buffer.Length))
      && input == Flat(received) + Partial() + unread
      && marker !in Partial()
    }

    /** Between two calls of the application all of the segment has been read. */
    ghost predicate Blocked(marker: byte)
      reads this, buffer
    {
      Reading(marker) && unread == [] && waiting && state != Read
    }

    /** psock_init, and the first call of psock_readto up to where it waits */
    constructor (size: nat, marker: byte)
      requires size > 0
      ensures Blocked(marker) && fresh(buffer) && buffer.Length == size
      ensures input == [] && received == [] && Partial() == []
    {
      buffer := new byte[size](_ => 0);
      left := size;
      unread, unsent, received := [], [], [];
      state, waiting := None, true;
      input, acked, outstanding := [], [], [];
    }

    /** buf_bufto */
    method BufTo(marker: byte) returns (found: Found)
      requires Reading(marker)
      modifies this`left, this`unread, buffer
      ensures left <= buffer.Length && Partial() + unread == old(Partial() + unread)
      ensures found == NotFound ==> unread == [] && marker !in Partial()
      ensures found == Full ==> unread != [] && left == 0 && marker !in Partial()
      ensures found == MarkerFound ==>
        Partial() != [] && Partial()[|Partial()| - 1] == marker && marker !in Partial()[..|Partial()| - 1]
      ensures old(unread) == [] ==> found == NotFound && Partial() == old(Partial())
      ensures old(unread) != [] ==>
        if old(left) == 0 then found == Full && unread == old(unread) else |unread| < |old(unread)|
    {
      hide Records, Flat, IsRecord;
      ghost var all := Partial() + unread;
      while left > 0 && unread != []
        invariant left <= buffer.Length && Partial() + unread == all && marker !in Partial()
        invariant old(unread) == [] ==> unread == [] && Partial() == old(Partial())
        invariant if old(left) == left then unread == old(unread) else |unread| < |old(unread)|
        invariant left <= old(left)
        decreases left
      {
        ghost var p := Partial();
        var c := unread[0];
        buffer[buffer.Length - left] := c;
        left := left - 1;
        assert Partial() == p + [c];
        unread := unread[1..];
        if c == marker {
          assert Partial()[..|Partial()| - 1] == p;
          return MarkerFound;
        }
      }
      if unread == [] {
        return NotFound;
      }
      return Full;
    }

    /** psock_newdata */
    method NewData(newdata: bool) returns (r: bool)
      modifies this`state
      ensures r == (unread != [] || (old(state) != Read && newdata))
      ensures state == if unread == [] && old(state) == Read then BlockedNewData else old(state)
    {
      if |unread| > 0 {
        return true;
      } else if state == Read {
        state := BlockedNewData;
        return false;
      } else if newdata {
        return true;
      } else {
        return false;
      }
    }

    /** A complete record goes to the application, and psock_readto starts over. */
    method Deliver(marker: byte, found: Found)
      requires buffer.Length > 0 && left <= buffer.Length
      requires forall i :: 0 <= i < |received| ==> IsRecord(received[i], marker, buffer.Length)
      requires input == Flat(received) + (Partial() + unread) && IsRecord(Partial(), marker, buffer.Length)
      modifies this`left, this`received
      ensures Reading(marker) && Partial() == [] && received == old(received) + [old(Partial())]
    {
      FlatMore(received, Partial());
      ghost var r, rs := Partial(), received;
      assert Flat(rs) + (r + unread) == Flat(rs) + r + [] + unread;
      received := received + [buffer[..buffer.Length - left]];
      left := buffer.Length;
      assert Partial() == [];
    }

    /**
     * An application that calls psock_readto over and over, during one call by the stack: however the stream is cut
     * into segments, it gets the records of the stream, but that a record which fills the buffer without a marker
     * is only handed over once another byte has come.
     */
    method ReadAll(marker: byte, newdata: bool, data: seq<byte>)
      requires Blocked(marker)
      modifies this, buffer
      ensures Blocked(marker)
      ensures input == old(input) + (if newdata then data else []) && old(received) <= received
      ensures Records(input, marker, buffer.Length) ==
        received + (if |Partial()| == buffer.Length then [Partial()] else [])
    {
      hide Records, Flat, IsRecord;
      ghost var before, got := received, false;
      while true
        invariant Reading(marker) && before <= received
        invariant state == Read || unread == []
        invariant got == (state == Read) && (got ==> newdata)
        invariant input == old(input) + (if got then data else [])
        decreases if state == Read then 0 else 1, |unread|, if left == 0 then 1 else 0
      {
        if |unread| == 0 {
          var ready := NewData(newdata);
          if !ready {
            waiting := true;
            StreamRecords(marker);
            return;
          }
          waiting, state := false, Read;
          unread := data;
          input := input + data;
          got := true;
        }
        ReadPart(marker);
      }
    }

    /** psock_readto as far as the segment goes, or up to the end of a record. */
    method ReadPart(marker: byte)
      requires Reading(marker) && state == Read
      modifies this`left, this`unread, this`received, buffer
      ensures Reading(marker) && old(received) <= received
      ensures old(unread) == [] ==> unread == []
      ensures old(unread) != [] ==> |unread| < |old(unread)| || (old(left) == 0 && left > 0 && unread == old(unread))
    {
      hide Records, Flat, IsRecord;
      ghost var partial := Partial();
      var found := BufTo(marker);
      assert input == Flat(received) + (Partial() + unread);
      if found != NotFound {
        RecordComplete(marker, found, partial);
        Deliver(marker, found);
      }
    }

    lemma RecordComplete(marker: byte, found: Found, partial: seq<byte>)
      requires buffer.Length > 0 && left <= buffer.Length
      requires found == Full ==> left == 0 && marker !in Partial()
      requires found == MarkerFound ==>
        Partial() != [] && Partial()[|Partial()| - 1] == marker && marker !in Partial()[..|Partial()| - 1]
      ensures found != NotFound ==> IsRecord(Partial(), marker, buffer.Length)
    {}

    lemma StreamRecords(marker: byte)
      requires Reading(marker) && unread == []
      ensures Records(input, marker, buffer.Length) ==
        received + (if |Partial()| == buffer.Length then [Partial()] else [])
    {
      var p, size := Partial(), buffer.Length;
      assert input == Flat(received) + p;
      RecordsJoin(received, p, marker, size);
      if |p| == size {
        RecordsNext(p, [], marker, size);
        assert p + [] == p;
      } else {
        NoRecord(p, marker, size);
      }
    }

    /** What has been acknowledged and what is still to be sent make up the data, and what is out is its next chunk. */
    ghost predicate Sending(data: seq<byte>)
      reads this
    {
      && acked + unsent == data && (unsent == [] ==> state != DataSent)
      && (state == DataSent ==> outstanding != [] && outstanding <= unsent)
    }

    /** uip_send: what goes out now is what is outstanding. */
    method UipSend(len: nat)
      requires len <= |unsent|
      modifies this`outstanding
      ensures outstanding == unsent[..len]
    {
      outstanding := unsent[..len];
    }

    /**
     * data_is_sent_and_acked, when the stack reports an acknowledgement of all that is outstanding or asks for it
     * again. The chunk is counted as it was sent exactly if the segment size still gives the same one.
     */
    method SentAndAcked(mss: nat, rexmit: bool, ack: bool) returns (done: bool)
      requires mss > 0 && unsent != []
      requires state == DataSent ==> outstanding <= unsent && outstanding != []
      modifies this`state, this`unsent, this`acked, this`outstanding
      ensures done <==> old(state) == DataSent && !rexmit && ack
      ensures done ==>
        && state == Acked && acked == old(acked) + old(outstanding) && outstanding == old(outstanding)
        && unsent == old(unsent)[Min(|old(unsent)|, mss)..]
        && (acked + unsent == old(acked + unsent) <==> |old(outstanding)| == Min(|old(unsent)|, mss))
      ensures !done ==> acked == old(acked) && unsent == old(unsent)
      ensures !done ==> state == DataSent
      ensures !done ==>
        outstanding == if old(state) != DataSent || rexmit then unsent[..Min(|unsent|, mss)] else old(outstanding)
    {
      ghost var a, u, n := acked, unsent, Min(|unsent|, mss);
      if state != DataSent || rexmit {
        if |unsent| > mss {
          UipSend(mss);
        } else {
          UipSend(|unsent|);
        }
        state := DataSent;
        return false;
      } else if state == DataSent && ack {
        acked := acked + outstanding;
        if |unsent| > mss {
          unsent := unsent[mss..];
        } else {
          unsent := [];
        }
        state := Acked;
        assert |a + u| == |a| + |u| && |acked + unsent| == |a| + |outstanding| + |u| - n;
        if |outstanding| == n {
          assert outstanding == u[..n];
          assert acked + unsent == a + (u[..n] + u[n..]);
        }
        return true;
      }
      return false;
    }

    /** The first call of psock_send, which sends the first chunk. */
    method StartSend(data: seq<byte>, mss: nat) returns (ended: bool)
      requires mss > 0
      modifies this`state, this`unsent, this`acked, this`outstanding
      ensures ended <==> data == []
      ensures !ended ==> Sending(data) && acked == [] && outstanding == data[..Min(|data|, mss)] && state == DataSent
    {
      if |data| == 0 {
        return true;
      }
      unsent, acked := data, [];
      state := None;
      var done := SentAndAcked(mss, false, false);
      return false;
    }

    /**
     * psock_send when the stack calls again: with an acknowledgement, to have the chunk again, or for nothing. With a
     * fixed segment size, what is acknowledged is a prefix of the data at any time, and all of it at the end.
     */
    method ResumeSend(data: seq<byte>, mss: nat, rexmit: bool, ack: bool) returns (ended: bool)
      requires mss > 0 && Sending(data) && state == DataSent && |outstanding| == Min(|unsent|, mss)
      modifies this`state, this`unsent, this`acked, this`outstanding
      ensures Sending(data) && old(acked) <= acked <= data
      ensures acked == old(acked) + if ack && !rexmit then old(outstanding) else []
      ensures ended <==> acked == data
      ensures if ended then state == None else state == DataSent && |outstanding| == Min(|unsent|, mss)
    {
      ghost var a, u := acked, unsent;
      var done := SentAndAcked(mss, rexmit, ack);
      if !done {
        return false;
      }
      assert acked <= data by { assert acked + unsent == data; }
      if |unsent| > 0 {
        var again := SentAndAcked(mss, rexmit, ack);
        return false;
      }
      state := None;
      return true;
    }
  }

  /** One call by the stack while psock_send waits. */
  datatype Call = Call(rexmit: bool, ack: bool)

  /** Whatever the calls are, the data is acknowledged piece by piece from its start. */
  method SendRun(s: Socket, data: seq<byte>, mss: nat, calls: seq<Call>) returns (ended: bool)
    requires mss > 0
    modifies s
    ensures data == [] ==> ended
    ensures data != [] ==> s.acked <= data && (ended <==> s.acked == data)
    ensures data != [] && !ended ==> s.outstanding == data[|s.acked|..][..Min(|data| - |s.acked|, mss)]
  {
    ended := s.StartSend(data, mss);
    var i := 0;
    while i < |calls| && !ended
      invariant 0 <= i <= |calls|
      invariant data == [] ==> ended
      invariant data != [] ==> s.Sending(data) && (ended <==> s.acked == data)
      invariant data != [] && !ended ==> s.state == DataSent && |s.outstanding| == Min(|s.unsent|, mss)
    {
      ended := s.ResumeSend(data, mss, calls[i].rexmit, calls[i].ack);
      i := i + 1;
    }
    if data != [] {
      assert data == s.acked + s.unsent;
      assert data[|s.acked|..] == s.unsent;
    }
  }
}
