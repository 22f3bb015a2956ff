/**
 * RingBuffer: a circular byte buffer over memory it does not own (a shared area). Write
 * copies the data at the head, splitting the copy in two when it runs past the end, and
 * moves the head past it.
 */
module Ring {
  import opened Bytes

  /** The position i bytes on from at, wrapping at the end of a ring of n bytes. */
  function Pos(at: nat, i: nat, n: nat): (p: nat)
    requires at < n && i <= n
    ensures p < n
  {
    if at + i < n then at + i else at + i - n
  }

  /** Pos is (at + i) mod n. */
  lemma PosIsMod(at: nat, i: nat, n: nat)
    requires at < n && i <= n
    ensures Pos(at, i, n) == (at + i) % n
  {
    if at + i < n {
      DivModUnique(at + i, n, 0, at + i);
    } else {
      DivModUnique(at + i, n, 1, at + i - n);
    }
  }

  /** How far position j lies after at, going forward round the ring. */
  function Offset(j: nat, at: nat, n: nat): (d: nat)
    requires at < n && j < n
    ensures d < n && Pos(at, d, n) == j
  {
    if j >= at then j - at else j + n - at
  }

  /**
   * The memory after a circular write: data laid down from position at onwards, wrapping to
   * the start, and every other byte as it was.
   */
  function Overlay(mem: seq<Byte>, at: nat, data: seq<Byte>): (r: seq<Byte>)
    requires at < |mem| && |data| <= |mem|
    ensures |r| == |mem|
    ensures forall i :: 0 <= i < |data| ==> r[Pos(at, i, |mem|)] == data[i]
    ensures forall j :: 0 <= j < |mem| && Offset(j, at, |mem|) >= |data| ==> r[j] == mem[j]
  {
    seq(|mem|, j requires 0 <= j < |mem| =>
      if Offset(j, at, |mem|) < |data| then data[Offset(j, at, |mem|)] else mem[j])
  }

  /** The len bytes of mem read circularly from position at. */
  function Window(mem: seq<Byte>, at: nat, len: nat): (w: seq<Byte>)
    requires at < |mem| && len <= |mem|
    ensures |w| == len
  {
    seq(len, i requires 0 <= i < len => mem[Pos(at, i, |mem|)])
  }

  /** Reading back the window a write covered gives exactly the bytes written. */
  lemma ReadBack(mem: seq<Byte>, at: nat, data: seq<Byte>)
    requires at < |mem| && |data| <= |mem|
    ensures Window(Overlay(mem, at, data), at, |data|) == data
  {
  }

  /** A write leaves alone exactly the bytes outside its window: the rest of the ring reads as before. */
  lemma OutsideWindow(mem: seq<Byte>, at: nat, data: seq<Byte>)
    requires at < |mem| && |data| <= |mem|
    ensures var n := |mem|;
      var e := Pos(at, |data|, n);
      e < n && Window(Overlay(mem, at, data), e, n - |data|) == Window(mem, e, n - |data|)
  {
    var n := |mem|;
    var e := Pos(at, |data|, n);
    var o := Overlay(mem, at, data);
    forall i | 0 <= i < n - |data|
      ensures o[Pos(e, i, n)] == mem[Pos(e, i, n)]
    {
      assert Offset(Pos(e, i, n), at, n) == |data| + i;
    }
  }

  /**
   * Two writes in a row, the second at the head the first left, read back as one: the ring
   * holds the concatenation as long as together they fit.
   */
  lemma {:induction false} ConsecutiveWrites(mem: seq<Byte>, at: nat, d1: seq<Byte>, d2: seq<Byte>)
    requires at < |mem| && |d1| + |d2| <= |mem|
    ensures var n := |mem|;
      var e := Pos(at, |d1|, n);
      e < n && Window(Overlay(Overlay(mem, at, d1), e, d2), at, |d1| + |d2|) == d1 + d2
  {
    var n := |mem|;
    var e := Pos(at, |d1|, n);
    var m1 := Overlay(mem, at, d1);
    var m2 := Overlay(m1, e, d2);
    var w := Window(m2, at, |d1| + |d2|);
    forall i | 0 <= i < |d1| + |d2|
      ensures w[i] == (d1 + d2)[i]
    {
      var p := Pos(at, i, n);
      if i < |d1| {
        assert Offset(p, e, n) == n - |d1| + i;
        assert m2[p] == m1[p];
      } else {
        assert p == Pos(e, i - |d1|, n);
      }
    }
  }

  /**
   * The split copy of Write: bytes at+k for k below first, then bytes k for k below second,
   * taken from data in order, describe the circular overlay when first runs to the end of
   * the ring or covers all of data.
   */
  lemma SplitCopy(mem: seq<Byte>, r: seq<Byte>, at: nat, data: seq<Byte>, first: nat, second: nat)
    requires at < |mem| == |r| && |data| <= |mem|
    requires first + second == |data|
    requires (at + |data| <= |mem| && second == 0) || (at + |data| > |mem| && first == |mem| - at)
    requires forall j :: at <= j < at + first ==> r[j] == data[j - at]
    requires forall j :: 0 <= j < second ==> r[j] == data[first + j]
    requires forall j :: 0 <= j < |mem| && !(at <= j < at + first) && !(j < second) ==> r[j] == mem[j]
    ensures r == Overlay(mem, at, data)
  {
  }

  class RingBuffer {
    /** The shared memory the ring writes into; its length is Size(). */
    var buffer: array<Byte>
    /** Where the next write starts. */
    var head: int

    ghost predicate Valid()
      reads this
    {
      0 <= head < buffer.Length
    }

    /** The ring starts empty at offset 0 over memory handed in by the caller. */
    constructor(memory: array<Byte>)
      requires memory.Length > 0
      ensures Valid() && buffer == memory && head == 0
    {
      buffer := memory;
      head := 0;
    }

    /**
     * Writes data at the head, wrapping past the end, and returns the offset it started at.
     * The source does not check len against the size: a longer write would overrun the second
     * copy, so callers must keep len within the size.
     */
    method Write(data: seq<Byte>) returns (start: int)
      requires Valid() && |data| <= buffer.Length
      modifies buffer, this`head
      ensures Valid()
      ensures start == old(head)
      ensures buffer[..] == Overlay(old(buffer[..]), start, data)
      ensures head == (start + |data|) % buffer.Length
      ensures forall i :: 0 <= i < |data| ==> buffer[(start + i) % buffer.Length] == data[i]
    {
      start := head;
      var n := buffer.Length;
      var firstPart := 0;
      var secondPart := 0;
      if head + |data| <= n {
        firstPart := |data|;
      } else {
        firstPart := n - head;
        secondPart := |data| - firstPart;
      }
      forall k | 0 <= k < firstPart {
        buffer[head + k] := data[k];
      }
      if secondPart > 0 {
        forall k | 0 <= k < secondPart {
          buffer[k] := data[firstPart + k];
        }
        head := secondPart;
      } else {
        head := head + |data|;
        if head == n {
          head := 0;
        }
      }
      PosIsMod(start, |data|, n);
      SplitCopy(old(buffer[..]), buffer[..], start, data, firstPart, secondPart);
      forall i | 0 <= i < |data|
        ensures buffer[(start + i) % n] == data[i]
      {
        PosIsMod(start, i, n);
      }
    }
  }
}
