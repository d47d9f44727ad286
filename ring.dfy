/**
 * The ring engine: a fixed-capacity byte ring whose cursors and data area
 * are updated in place by every call. Each call is one sequential step; the
 * two processes that share the ring in practice are not modelled.
 */
module RingBuffer {
  import opened RingSpec

  /**
   * `memcpy`: copies `n` bytes of `src` starting at `from` into `dst`
   * starting at `at`. The regions lie in different arrays, as `memcpy`
   * demands that they do not overlap.
   */
  method Copy(dst: array<byte>, at: nat, src: array<byte>, from: nat, n: nat)
    requires dst != src
    requires at + n <= dst.Length && from + n <= src.Length
    modifies dst
    ensures dst[..] == Splice(old(dst[..]), at, src[from..from + n])
  {
    var i := 0;
    while i < n
      invariant 0 <= i <= n
      invariant forall j :: 0 <= j < dst.Length ==>
        dst[j] == if at <= j < at + i then src[from + (j - at)] else old(dst[j])
    {
      dst[at + i] := src[from + i];
      i := i + 1;
    }
    assert dst[..] == Splice(old(dst[..]), at, src[from..from + n]);
  }

  /** `struct ring`: the capacity, the two cursors and the data area. */
  class Ring {
    /** Capacity of the data area in bytes, fixed at creation. */
    const size: nat
    /** The data area; its bytes change, the array itself does not. */
    const data: array<byte>
    /** Index of the next byte to read. */
    var head: nat
    /** Index of the next byte to write. */
    var tail: nat

    /** The data area has `size` bytes, `size` is positive and both cursors lie inside it. */
    ghost predicate Valid()
      reads this
    {
      size > 0 && data.Length == size && Cursors(size, head, tail)
    }

    /** The bytes waiting to be read, oldest first. */
    ghost function Contents(): seq<byte>
      reads this, data
      requires Valid()
    {
      Queued(data[..], head, tail)
    }

    /** The part of `ring_buffer_create` that sets up the ring: record the capacity, then reset. */
    constructor (size: nat)
      requires size > 0
      ensures Valid() && fresh(data)
      ensures this.size == size && head == 0 && tail == 0
      ensures Contents() == [] && Free(size, head, tail) == size - 1
    {
      this.size := size;
      data := new byte[size];
      new;
      Reset();
    }

    /** `ring_buffer_reset`: both cursors back to the start of the data area; the bytes stay. */
    method Reset()
      requires size > 0 && data.Length == size
      modifies this`head, this`tail
      ensures Valid() && head == 0 && tail == 0
      ensures Contents() == [] && Available(size, head, tail) == 0 && Free(size, head, tail) == size - 1
    {
      head := 0;
      tail := 0;
    }

    /** `ring_wheel_tail`: move the write cursor `p` bytes forward and return its new value. */
    method WheelTail(p: nat) returns (t: nat)
      requires Valid()
      modifies this`tail
      ensures Valid() && tail == Advance(size, old(tail), p) && t == tail
    {
      tail := (tail + p) % size;
      t := tail;
    }

    /** `ring_wheel_head`: move the read cursor `p` bytes forward and return its new value. */
    method WheelHead(p: nat) returns (h: nat)
      requires Valid()
      modifies this`head
      ensures Valid() && head == Advance(size, old(head), p) && h == head
    {
      head := (head + p) % size;
      h := head;
    }

    /**
     * `ring_buffer_write`: copy as much of the first `len` bytes of `buf` as
     * fits behind the queued bytes and return how many were taken.
     */
    method Write(buf: array<byte>, len: nat) returns (n: nat)
      requires Valid() && len <= buf.Length && buf != data
      modifies this`tail, data
      ensures Valid() && head == old(head)
      ensures n == Writable(size, old(head), old(tail), len)
      ensures tail == Advance(size, old(tail), n)
      ensures data[..] == WriteAt(old(data[..]), old(tail), buf[..n])
      ensures Contents() == old(Contents()) + buf[..n]
      ensures n == 0 ==> tail == old(tail) && data[..] == old(data[..])
    {
      var t, h := tail, head;
      var writable: nat := if h > t then h - t - 1 else size + h - t - 1;
      writable := if len > writable then writable else len;
      if writable > 0 {
        StoreAtTail(buf, writable);
      } else {
        WriteNothing(data[..], t);
        AdvanceIsSlot(size, t, 0);
      }
      n := writable;
      WriteAppends(old(data[..]), h, t, buf[..n]);
    }

    /**
     * The transfer part of `ring_buffer_write`: copy the first `n` bytes of
     * `buf` in at `tail`, as one `memcpy` when they fit before the end of
     * the data area and as two when they do not, then wheel `tail` past them.
     */
    method StoreAtTail(buf: array<byte>, n: nat)
      requires Valid() && n <= buf.Length && buf != data
      requires 0 < n <= Free(size, head, tail)
      modifies this`tail, data
      ensures Valid() && head == old(head)
      ensures tail == Advance(size, old(tail), n)
      ensures data[..] == WriteAt(old(data[..]), old(tail), buf[..n])
    {
      var t, h := tail, head;
      ghost var d0, b := data[..], buf[..];
      if t < h {
        Copy(data, t, buf, 0, n);
        ContiguousWrite(d0, t, b, n);
        var _ := WheelTail(n);
      } else {
        var toEnd := size - t;
        if toEnd >= n {
          Copy(data, t, buf, 0, n);
          ContiguousWrite(d0, t, b, n);
          var _ := WheelTail(n);
        } else {
          Copy(data, t, buf, 0, toEnd);
          Copy(data, 0, buf, toEnd, n - toEnd);
          SplitWrite(d0, t, b, n);
          var _ := WheelTail(n);
        }
      }
    }

    /**
     * `ring_buffer_read`: copy as many of the queued bytes as `len` allows
     * into the front of `buf`, release them and return how many were read.
     */
    method Read(buf: array<byte>, len: nat) returns (n: nat)
      requires Valid() && len <= buf.Length && buf != data
      modifies this`head, buf
      ensures Valid() && tail == old(tail)
      ensures n == Readable(size, old(head), old(tail), len)
      ensures head == Advance(size, old(head), n)
      ensures buf[..n] == Window(data[..], old(head), n) == old(Contents())[..n]
      ensures buf[n..] == old(buf[n..])
      ensures Contents() == old(Contents())[n..]
      ensures n == 0 ==> head == old(head) && buf[..] == old(buf[..])
    {
      var t, h := tail, head;
      var readable: nat := if t >= h then t - h else size - h + t;
      readable := if len > readable then readable else len;
      if readable > 0 {
        FetchAtHead(buf, readable);
      } else {
        AdvanceIsSlot(size, h, 0);
      }
      n := readable;
      ReadTakesFront(data[..], h, t, n);
    }

    /**
     * The transfer part of `ring_buffer_read`: copy `n` queued bytes from
     * `head` to the front of `buf`, as one `memcpy` when they lie before the
     * end of the data area and as two when they do not, then wheel `head`
     * past them.
     */
    method FetchAtHead(buf: array<byte>, n: nat)
      requires Valid() && n <= buf.Length && buf != data
      requires 0 < n <= Available(size, head, tail)
      modifies this`head, buf
      ensures Valid() && tail == old(tail)
      ensures head == Advance(size, old(head), n)
      ensures buf[..n] == Window(old(data[..]), old(head), n)
      ensures buf[n..] == old(buf[n..])
    {
      var t, h := tail, head;
      ghost var d, b0 := data[..], buf[..];
      if t >= h {
        Copy(buf, 0, data, h, n);
        ContiguousRead(d, b0, h, n);
        var _ := WheelHead(n);
      } else {
        var toEnd := size - h;
        if toEnd >= n {
          Copy(buf, 0, data, h, n);
          ContiguousRead(d, b0, h, n);
          var _ := WheelHead(n);
        } else {
          Copy(buf, 0, data, h, toEnd);
          Copy(buf, toEnd, data, 0, n - toEnd);
          SplitRead(d, b0, h, n);
          var _ := WheelHead(n);
        }
      }
    }
  }

  /**
   * A client run on a ring of capacity 8 (7 usable bytes): write "ABCDEFG",
   * read 3, write "XY" across the end of the data area, read 6. The reads
   * yield "ABC" and "DEFGXY" and the ring ends empty with both cursors at 1.
   */
  method EndToEnd() returns (first: seq<byte>, second: seq<byte>, head: nat, tail: nat)
    ensures first == [65, 66, 67]
    ensures second == [68, 69, 70, 71, 88, 89]
    ensures head == 1 && tail == 1
  {
    var r := new Ring(8);
    var letters := new byte[7] [65, 66, 67, 68, 69, 70, 71];
    var n := r.Write(letters, 7);
    assert n == 7 && r.tail == 7;
    assert r.Contents() == [65, 66, 67, 68, 69, 70, 71];
    var out := new byte[6];
    n := r.Read(out, 3);
    assert n == 3 && r.head == 3;
    first := out[..3];
    assert r.Contents() == [68, 69, 70, 71];
    var xy := new byte[2] [88, 89];
    n := r.Write(xy, 2);
    assert n == 2 && r.tail == 1;
    assert r.Contents() == [68, 69, 70, 71, 88, 89];
    n := r.Read(out, 6);
    assert n == 6 && r.head == 1;
    second := out[..6];
    head, tail := r.head, r.tail;
  }
}
