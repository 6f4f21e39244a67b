/** struct mg_iobuf: a byte buffer edited in place; the first `len` bytes are its contents. */
module IoBuf {
  import opened Bytes

  class Buffer {
    var buf: array<byte>
    var len: nat

    ghost predicate Valid()
      reads this
    {
      len <= buf.Length
    }

    ghost function Data(): (s: seq<byte>)
      requires Valid()
      reads this, buf
    {
      buf[..len]
    }

    constructor ()
      ensures Valid() && fresh(buf) && Data() == []
    {
      buf := new byte[0];
      len := 0;
    }

    // mg_iobuf_resize to a size that does not cut the contents.
    method Grow(size: nat)
      requires Valid() && len <= size
      modifies this`buf
      ensures Valid() && fresh(buf) && buf.Length == size && Data() == old(Data())
    {
      var p := new byte[size](_ => 0);
      forall i | 0 <= i < len {
        p[i] := buf[i];
      }
      buf := p;
    }

    // mg_iobuf_add at the end, which is also what a socket read does.
    method Append(data: seq<byte>)
      requires Valid()
      modifies this, buf
      ensures Valid() && (buf == old(buf) || fresh(buf)) && Data() == old(Data()) + data
    {
      if len + |data| > buf.Length {
        Grow(len + |data|);
      }
      forall i | len <= i < len + |data| {
        buf[i] := data[i - len];
      }
      len := len + |data|;
    }

    // memmove inside the buffer.
    method Move(to: nat, from: nat, n: nat)
      requires Valid() && to + n <= len && from + n <= len
      modifies buf
      ensures Data() == Put(old(Data()), to, old(Data())[from..from + n])
    {
      forall i | to <= i < to + n {
        buf[i] := buf[from + (i - to)];
      }
    }

    // mg_iobuf_del: clips its arguments, closes the gap and zeroes the bytes given up.
    method Del(at: nat, count: nat) returns (n: nat)
      requires Valid()
      modifies this`len, buf
      ensures Valid() && buf == old(buf)
      ensures var was := old(Data()); var ofs := if at > |was| then |was| else at;
              n == (if ofs + count > |was| then |was| - ofs else count)
              && Data() == was[..ofs] + was[ofs + n..]
              && forall i :: |was| - n <= i < |was| ==> buf[i] == 0
    {
      var ofs := if at > len then len else at;
      n := if ofs + count > len then len - ofs else count;
      forall i | ofs <= i < len - n {
        buf[i] := buf[i + n];
      }
      forall i | len - n <= i < len {
        buf[i] := 0;
      }
      len := len - n;
    }
  }
}
