/**
 The growable byte buffer behind both dyld opcode streams: `rebase_byte`,
 `rebase_uleb`, `bind_byte`, `bind_uleb` and `bind_str` append to it and let it
 grow when the reserve runs out.
 */
module OpcodeBuffer {
  import opened Common
  import opened Uleb
  import opened ExportTrie
  import opened TrieEncoding

  class Buffer {
    var buf: array<byte>
    var size: nat

    ghost predicate Valid()
      reads this
    {
      size <= buf.Length
    }

    ghost function Contents(): seq<byte>
      reads this, buf
      requires Valid()
    {
      buf[..size]
    }

    constructor ()
      ensures Valid() && fresh(buf) && Contents() == []
    {
      buf := new byte[0];
      size := 0;
    }

    /** Makes room for `need` more bytes without changing what is there. */
    method Grow(need: nat)
      requires Valid()
      modifies this
      ensures Valid() && Contents() == old(Contents()) && size + need <= buf.Length
      ensures size == old(size) && (buf == old(buf) || fresh(buf))
    {
      if size + need > buf.Length {
        var bigger := new byte[(buf.Length + need + 256) * 2];
        var i := 0;
        while i < size
          invariant 0 <= i <= size <= bigger.Length && size == old(size) && buf == old(buf)
          invariant fresh(bigger) && bigger[..i] == buf[..i] && buf[..] == old(buf[..])
        {
          bigger[i] := buf[i];
          i := i + 1;
        }
        buf := bigger;
      }
    }

    method Byte(b: byte)
      requires Valid()
      modifies this, buf
      ensures Valid() && (buf == old(buf) || fresh(buf)) && Contents() == old(Contents()) + [b]
    {
      Grow(1);
      buf[size] := b;
      size := size + 1;
    }

    /** The reserve of ten bytes is enough for any 64-bit value. */
    method Number(v: u64)
      requires Valid()
      modifies this, buf
      ensures Valid() && (buf == old(buf) || fresh(buf)) && Contents() == old(Contents()) + UlebBytes(v)
    {
      Grow(10);
      UlebAtMostTen(v);
      var n := WriteUleb(buf, size, v);
      size := size + n;
    }

    method String(s: Str)
      requires Valid()
      modifies this, buf
      ensures Valid() && (buf == old(buf) || fresh(buf)) && Contents() == old(Contents()) + CStr(s)
    {
      var i := 0;
      while i < |s|
        invariant 0 <= i <= |s| && Valid() && (buf == old(buf) || fresh(buf))
        invariant Contents() == old(Contents()) + s[..i]
      {
        Byte(s[i]);
        i := i + 1;
      }
      assert s[..i] == s;
      Byte(0);
    }
  }
}
