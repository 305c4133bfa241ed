/**
 * The buffered writers and the byte-slice reader of the Custom package
 * (src/github.com/AlasdairF/Custom/custom.go).
 *
 * Buffer grows its array as needed, Writer keeps a fixed 64 KiB array and
 * hands it to an underlying io.Writer (a Conv.Sink) whenever it fills, and
 * BytesReader decodes values at a cursor over a byte slice. Each Write* method
 * appends the bytes the matching CustomCodec function gives, and each Read*
 * method returns what the matching decoder gives for the bytes at the cursor;
 * the round-trip lemmas of CustomCodec connect the two.
 */
module Custom {
  import opened Words
  import opened CustomCodec
  import Conv

  /** bufferLen: the size of a Writer's array and of a small Buffer's. */
  const BufferLen: int := 65536

  // ---------------------------------------------------------------- Buffer

  /** Buffer: a growing byte buffer; data[..cursor] holds what has been written. */
  class Buffer {
    var data: array<byte>
    var cursor: int
    var length: int

    ghost predicate Valid()
      reads this
    {
      0 <= cursor <= length && length == data.Length
    }

    /** Bytes: everything written since the buffer was made or last Reset. */
    function Bytes(): (b: seq<byte>)
      reads this, data
      requires Valid()
      ensures |b| == cursor
    {
      data[..cursor]
    }

    /** Len: the number of bytes written so far. */
    function Len(): (n: int)
      reads this, data
      requires Valid()
      ensures n == |Bytes()|
    {
      cursor
    }

    /** NewBuffer(l): a 64 KiB array for l up to bufferLen, otherwise one of l bytes. */
    constructor(l: int)
      ensures Valid() && Bytes() == [] && fresh(data)
      ensures length == if l <= BufferLen then BufferLen else l
    {
      var n := if l <= BufferLen then BufferLen else l;
      data := new byte[n];
      length := n;
      cursor := 0;
    }

    /** grow(l): a new array of twice (length + l) bytes holding the old contents. */
    method Grow(l: int)
      requires Valid() && 0 <= l
      modifies this
      ensures Valid() && fresh(data)
      ensures cursor == old(cursor) && Bytes() == old(Bytes())
      ensures length == (old(length) + l) * 2 && cursor + l <= length
    {
      var newLength := (length + l) * 2;
      var newAr := new byte[newLength];
      forall i | 0 <= i < data.Length {
        newAr[i] := data[i];
      }
      length := newLength;
      data := newAr;
    }

    /** Write(p): grows when p does not fit, then copies p after the cursor. */
    method Write(p: seq<byte>) returns (n: int)
      requires Valid()
      modifies this, data
      ensures Valid() && (data == old(data) || fresh(data))
      ensures Bytes() == old(Bytes()) + p && n == |p|
    {
      var l := |p|;
      if cursor + l > length {
        Grow(l);
      }
      var c := cursor;
      forall i | 0 <= i < l {
        data[c + i] := p[i];
      }
      cursor := c + l;
      n := l;
    }

    /** WriteString(p): Write on the bytes of the string. */
    method WriteString(p: seq<byte>) returns (n: int)
      requires Valid()
      modifies this, data
      ensures Valid() && (data == old(data) || fresh(data))
      ensures Bytes() == old(Bytes()) + p && n == |p|
    {
      n := Write(p);
    }

    /** WriteByte(p): grows by one when full, then stores p at the cursor. */
    method WriteByte(p: byte)
      requires Valid()
      modifies this, data
      ensures Valid() && (data == old(data) || fresh(data))
      ensures Bytes() == old(Bytes()) + [p]
    {
      if cursor >= length {
        Grow(1);
      }
      data[cursor] := p;
      cursor := cursor + 1;
    }

    /** Writeln: a newline byte. */
    method Writeln()
      requires Valid()
      modifies this, data
      ensures Valid() && (data == old(data) || fresh(data))
      ensures Bytes() == old(Bytes()) + [10]
    {
      WriteByte(10);
    }

    /** WriteRune(r): the UTF-8 form of r, and its length. */
    method WriteRune(r: int32) returns (n: int)
      requires Valid()
      modifies this, data
      ensures Valid() && (data == old(data) || fresh(data))
      ensures Bytes() == old(Bytes()) + EncodeRune(r) && n == |EncodeRune(r)|
    {
      n := Write(EncodeRune(r));
    }

    /** WriteInt(p): the decimal text of p, as conv.Write produces it without padding. */
    method WriteInt(p: Conv.int64) returns (n: int)
      requires Valid() && p != Conv.MinInt64
      modifies this, data
      ensures Valid() && (data == old(data) || fresh(data))
      ensures Bytes() == old(Bytes()) + Conv.Formatted(p, 0) && n == |Conv.Formatted(p, 0)|
    {
      n := Write(Conv.Formatted(p, 0));
    }

    method WriteBool(v: bool)
      requires Valid()
      modifies this, data
      ensures Valid() && (data == old(data) || fresh(data))
      ensures Bytes() == old(Bytes()) + [BoolByte(v)]
    {
      if v {
        WriteByte(1);
      } else {
        WriteByte(0);
      }
    }

    method Write2Bools(v1: bool, v2: bool)
      requires Valid()
      modifies this, data
      ensures Valid() && (data == old(data) || fresh(data))
      ensures Bytes() == old(Bytes()) + [Pack2Bools(v1, v2)]
    {
      WriteByte(Pack2Bools(v1, v2));
    }

    method Write8Bools(v1: bool, v2: bool, v3: bool, v4: bool, v5: bool, v6: bool, v7: bool, v8: bool)
      requires Valid()
      modifies this, data
      ensures Valid() && (data == old(data) || fresh(data))
      ensures Bytes() == old(Bytes()) + [Pack8Bools(v1, v2, v3, v4, v5, v6, v7, v8) as byte]
    {
      WriteByte(Pack8Bools(v1, v2, v3, v4, v5, v6, v7, v8) as byte);
    }

    method Write2Uint4s(v1: byte, v2: byte)
      requires Valid()
      modifies this, data
      ensures Valid() && (data == old(data) || fresh(data))
      ensures Bytes() == old(Bytes()) + [Pack2Uint4s(v1 as bv8, v2 as bv8) as byte]
    {
      WriteByte(Pack2Uint4s(v1 as bv8, v2 as bv8) as byte);
    }

    /** WriteUint16, WriteUint24, WriteUint32, WriteUint48 and WriteUint64: v in n little-endian bytes. */
    method WriteFixed(v: nat, n: nat)
      requires Valid()
      modifies this, data
      ensures Valid() && (data == old(data) || fresh(data))
      ensures Bytes() == old(Bytes()) + LE(v, n)
    {
      var _ := Write(LE(v, n));
    }

    method WriteUint16(v: u16)
      requires Valid()
      modifies this, data
      ensures Valid() && (data == old(data) || fresh(data))
      ensures Bytes() == old(Bytes()) + LE(v, 2)
    {
      WriteFixed(v, 2);
    }

    method WriteUint24(v: u32)
      requires Valid()
      modifies this, data
      ensures Valid() && (data == old(data) || fresh(data))
      ensures Bytes() == old(Bytes()) + LE(v, 3)
    {
      WriteFixed(v, 3);
    }

    method WriteUint32(v: u32)
      requires Valid()
      modifies this, data
      ensures Valid() && (data == old(data) || fresh(data))
      ensures Bytes() == old(Bytes()) + LE(v, 4)
    {
      WriteFixed(v, 4);
    }

    method WriteUint48(v: u64)
      requires Valid()
      modifies this, data
      ensures Valid() && (data == old(data) || fresh(data))
      ensures Bytes() == old(Bytes()) + LE(v, 6)
    {
      WriteFixed(v, 6);
    }

    method WriteUint64(v: u64)
      requires Valid()
      modifies this, data
      ensures Valid() && (data == old(data) || fresh(data))
      ensures Bytes() == old(Bytes()) + LE(v, 8)
    {
      WriteFixed(v, 8);
    }

    method WriteUint16Variable(v: u16)
      requires Valid()
      modifies this, data
      ensures Valid() && (data == old(data) || fresh(data))
      ensures Bytes() == old(Bytes()) + Uint16Var(v)
    {
      if v < 255 {
        WriteByte(v);
      } else {
        var _ := Write([255] + LE(v, 2));
      }
    }

    method WriteInt16Variable(v: int16)
      requires Valid()
      modifies this, data
      ensures Valid() && (data == old(data) || fresh(data))
      ensures Bytes() == old(Bytes()) + Int16Var(v)
    {
      if -128 < v < 128 {
        WriteByte(v + 127);
      } else {
        var _ := Write([255] + LE(v % 0x1_0000, 2));
      }
    }

    /** WriteUint64Variable (with the value bytes corrected, see VarintAsWrittenCorrupts). */
    method WriteUint64Variable(v: u64)
      requires Valid()
      modifies this, data
      ensures Valid() && (data == old(data) || fresh(data))
      ensures Bytes() == old(Bytes()) + Varint(v)
    {
      var _ := Write([NumBytes(v)] + LE(v, NumBytes(v)));
    }

    /** Write2Uint64sVariable (corrected likewise): the header and v1 in one write, then v2. */
    method Write2Uint64sVariable(v1: u64, v2: u64)
      requires Valid()
      modifies this, data
      ensures Valid() && (data == old(data) || fresh(data))
      ensures Bytes() == old(Bytes()) + Varint2(v1, v2)
    {
      var s2 := NumBytes(v2);
      var _ := Write([16 * NumBytes(v1) + s2] + LE(v1, NumBytes(v1)));
      var _ := Write(LE(v2, s2));
    }

    /** The length in w bytes (capped at 256^w - 1), then that many bytes of s. */
    method WritePrefixed(s: seq<byte>, w: nat) returns (n: int)
      requires Valid()
      modifies this, data
      ensures Valid() && (data == old(data) || fresh(data))
      ensures Bytes() == old(Bytes()) + Prefixed(s, w) && n == |Prefixed(s, w)|
    {
      var m := Cap(|s|, w);
      WriteFixed(m, w);
      var _ := Write(s[..m]);
      n := w + m;
    }

    method WriteString8(s: seq<byte>) returns (n: int)
      requires Valid()
      modifies this, data
      ensures Valid() && (data == old(data) || fresh(data))
      ensures Bytes() == old(Bytes()) + Prefixed(s, 1) && n == |Prefixed(s, 1)|
    {
      n := WritePrefixed(s, 1);
    }

    method WriteString16(s: seq<byte>) returns (n: int)
      requires Valid()
      modifies this, data
      ensures Valid() && (data == old(data) || fresh(data))
      ensures Bytes() == old(Bytes()) + Prefixed(s, 2) && n == |Prefixed(s, 2)|
    {
      n := WritePrefixed(s, 2);
    }

    method WriteString32(s: seq<byte>) returns (n: int)
      requires Valid()
      modifies this, data
      ensures Valid() && (data == old(data) || fresh(data))
      ensures Bytes() == old(Bytes()) + Prefixed(s, 4) && n == |Prefixed(s, 4)|
    {
      n := WritePrefixed(s, 4);
    }

    method WriteBytes8(s: seq<byte>) returns (n: int)
      requires Valid()
      modifies this, data
      ensures Valid() && (data == old(data) || fresh(data))
      ensures Bytes() == old(Bytes()) + Prefixed(s, 1) && n == |Prefixed(s, 1)|
    {
      n := WritePrefixed(s, 1);
    }

    method WriteBytes16(s: seq<byte>) returns (n: int)
      requires Valid()
      modifies this, data
      ensures Valid() && (data == old(data) || fresh(data))
      ensures Bytes() == old(Bytes()) + Prefixed(s, 2) && n == |Prefixed(s, 2)|
    {
      n := WritePrefixed(s, 2);
    }

    method WriteBytes32(s: seq<byte>) returns (n: int)
      requires Valid()
      modifies this, data
      ensures Valid() && (data == old(data) || fresh(data))
      ensures Bytes() == old(Bytes()) + Prefixed(s, 4) && n == |Prefixed(s, 4)|
    {
      n := WritePrefixed(s, 4);
    }

    /** Reset: empties the buffer, keeping its array. */
    method Reset()
      requires Valid()
      modifies this
      ensures Valid() && data == old(data) && length == old(length) && Bytes() == []
    {
      cursor := 0;
    }

    /** BytesCopy: a new array holding the bytes written. */
    method BytesCopy() returns (b: array<byte>)
      requires Valid()
      ensures fresh(b) && b[..] == Bytes()
    {
      b := new byte[cursor];
      forall i | 0 <= i < cursor {
        b[i] := data[i];
      }
    }
  }

  // ---------------------------------------------------------------- Writer

  /**
   * Writer: a 64 KiB array in front of an io.Writer. The ghost contents is
   * everything the sink holds followed by what is still buffered.
   */
  class Writer {
    var w: Conv.Sink
    var data: array<byte>
    var cursor: int
    var close: bool
    ghost var contents: seq<byte>

    ghost predicate Valid()
      reads this, w, data
    {
      data.Length == BufferLen && 0 <= cursor <= BufferLen && w.written + data[..cursor] == contents
    }

    /** NewWriter(f): an empty buffer in front of f. */
    constructor(f: Conv.Sink)
      ensures Valid() && fresh(data)
      ensures w == f && cursor == 0 && !close && contents == f.written
    {
      w := f;
      data := new byte[BufferLen];
      cursor := 0;
      close := false;
      contents := f.written;
    }

    /** NewWriterCloser(f): the same, marked to close f when the Writer is closed. */
    constructor Closer(f: Conv.Sink)
      ensures Valid() && fresh(data)
      ensures w == f && cursor == 0 && close && contents == f.written
    {
      w := f;
      data := new byte[BufferLen];
      cursor := 0;
      close := true;
      contents := f.written;
    }

    /**
     * Write(p): when p does not fit after the cursor the buffer is flushed;
     * p is then buffered, or handed on directly when it is larger than the
     * whole buffer.
     */
    method Write(p: seq<byte>) returns (n: int)
      requires Valid()
      modifies this, data, w
      ensures Valid() && w == old(w) && data == old(data) && close == old(close)
      ensures contents == old(contents) + p && n == |p|
    {
      var l := |p|;
      if cursor + l > BufferLen {
        if cursor > 0 {
          var _ := w.Put(data[..cursor]);
        }
        if l > BufferLen {
          cursor := 0;
          n := w.Put(p);
          contents := contents + p;
          return;
        }
        forall i | 0 <= i < l {
          data[i] := p[i];
        }
        cursor := l;
      } else {
        var c := cursor;
        forall i | 0 <= i < l {
          data[c + i] := p[i];
        }
        cursor := c + l;
      }
      n := l;
      contents := contents + p;
    }

    method WriteString(p: seq<byte>) returns (n: int)
      requires Valid()
      modifies this, data, w
      ensures Valid() && w == old(w) && data == old(data) && close == old(close)
      ensures contents == old(contents) + p && n == |p|
    {
      n := Write(p);
    }

    /** WriteByte(p): a full buffer is flushed first. */
    method WriteByte(p: byte)
      requires Valid()
      modifies this, data, w
      ensures Valid() && w == old(w) && data == old(data) && close == old(close)
      ensures contents == old(contents) + [p]
    {
      if cursor < BufferLen {
        data[cursor] := p;
        cursor := cursor + 1;
      } else {
        var _ := w.Put(data[..cursor]);
        data[0] := p;
        cursor := 1;
      }
      contents := contents + [p];
    }

    method Writeln()
      requires Valid()
      modifies this, data, w
      ensures Valid() && w == old(w) && data == old(data) && close == old(close)
      ensures contents == old(contents) + [10]
    {
      WriteByte(10);
    }

    method WriteRune(r: int32) returns (n: int)
      requires Valid()
      modifies this, data, w
      ensures Valid() && w == old(w) && data == old(data) && close == old(close)
      ensures contents == old(contents) + EncodeRune(r) && n == |EncodeRune(r)|
    {
      n := Write(EncodeRune(r));
    }

    method WriteInt(p: Conv.int64) returns (n: int)
      requires Valid() && p != Conv.MinInt64
      modifies this, data, w
      ensures Valid() && w == old(w) && data == old(data) && close == old(close)
      ensures contents == old(contents) + Conv.Formatted(p, 0) && n == |Conv.Formatted(p, 0)|
    {
      n := Write(Conv.Formatted(p, 0));
    }

    method WriteBool(v: bool)
      requires Valid()
      modifies this, data, w
      ensures Valid() && w == old(w) && data == old(data) && close == old(close)
      ensures contents == old(contents) + [BoolByte(v)]
    {
      if v {
        WriteByte(1);
      } else {
        WriteByte(0);
      }
    }

    method Write2Bools(v1: bool, v2: bool)
      requires Valid()
      modifies this, data, w
      ensures Valid() && w == old(w) && data == old(data) && close == old(close)
      ensures contents == old(contents) + [Pack2Bools(v1, v2)]
    {
      WriteByte(Pack2Bools(v1, v2));
    }

    method Write8Bools(v1: bool, v2: bool, v3: bool, v4: bool, v5: bool, v6: bool, v7: bool, v8: bool)
      requires Valid()
      modifies this, data, w
      ensures Valid() && w == old(w) && data == old(data) && close == old(close)
      ensures contents == old(contents) + [Pack8Bools(v1, v2, v3, v4, v5, v6, v7, v8) as byte]
    {
      WriteByte(Pack8Bools(v1, v2, v3, v4, v5, v6, v7, v8) as byte);
    }

    method Write2Uint4s(v1: byte, v2: byte)
      requires Valid()
      modifies this, data, w
      ensures Valid() && w == old(w) && data == old(data) && close == old(close)
      ensures contents == old(contents) + [Pack2Uint4s(v1 as bv8, v2 as bv8) as byte]
    {
      WriteByte(Pack2Uint4s(v1 as bv8, v2 as bv8) as byte);
    }

    /** WriteUint16, WriteUint24, WriteUint32, WriteUint48 and WriteUint64: v in n little-endian bytes. */
    method WriteFixed(v: nat, n: nat)
      requires Valid()
      modifies this, data, w
      ensures Valid() && w == old(w) && data == old(data) && close == old(close)
      ensures contents == old(contents) + LE(v, n)
    {
      var _ := Write(LE(v, n));
    }

    method WriteUint16(v: u16)
      requires Valid()
      modifies this, data, w
      ensures Valid() && w == old(w) && data == old(data) && close == old(close)
      ensures contents == old(contents) + LE(v, 2)
    {
      WriteFixed(v, 2);
    }

    method WriteUint24(v: u32)
      requires Valid()
      modifies this, data, w
      ensures Valid() && w == old(w) && data == old(data) && close == old(close)
      ensures contents == old(contents) + LE(v, 3)
    {
      WriteFixed(v, 3);
    }

    method WriteUint32(v: u32)
      requires Valid()
      modifies this, data, w
      ensures Valid() && w == old(w) && data == old(data) && close == old(close)
      ensures contents == old(contents) + LE(v, 4)
    {
      WriteFixed(v, 4);
    }

    method WriteUint48(v: u64)
      requires Valid()
      modifies this, data, w
      ensures Valid() && w == old(w) && data == old(data) && close == old(close)
      ensures contents == old(contents) + LE(v, 6)
    {
      WriteFixed(v, 6);
    }

    method WriteUint64(v: u64)
      requires Valid()
      modifies this, data, w
      ensures Valid() && w == old(w) && data == old(data) && close == old(close)
      ensures contents == old(contents) + LE(v, 8)
    {
      WriteFixed(v, 8);
    }

    method WriteUint16Variable(v: u16)
      requires Valid()
      modifies this, data, w
      ensures Valid() && w == old(w) && data == old(data) && close == old(close)
      ensures contents == old(contents) + Uint16Var(v)
    {
      if v < 255 {
        WriteByte(v);
      } else {
        var _ := Write([255] + LE(v, 2));
      }
    }

    method WriteInt16Variable(v: int16)
      requires Valid()
      modifies this, data, w
      ensures Valid() && w == old(w) && data == old(data) && close == old(close)
      ensures contents == old(contents) + Int16Var(v)
    {
      if -128 < v < 128 {
        WriteByte(v + 127);
      } else {
        var _ := Write([255] + LE(v % 0x1_0000, 2));
      }
    }

    /** WriteUint64Variable (with the value bytes corrected, see VarintAsWrittenCorrupts). */
    method WriteUint64Variable(v: u64)
      requires Valid()
      modifies this, data, w
      ensures Valid() && w == old(w) && data == old(data) && close == old(close)
      ensures contents == old(contents) + Varint(v)
    {
      var _ := Write([NumBytes(v)] + LE(v, NumBytes(v)));
    }

    /** Write2Uint64sVariable (corrected likewise): the header and v1 in one write, then v2. */
    method Write2Uint64sVariable(v1: u64, v2: u64)
      requires Valid()
      modifies this, data, w
      ensures Valid() && w == old(w) && data == old(data) && close == old(close)
      ensures contents == old(contents) + Varint2(v1, v2)
    {
      var s2 := NumBytes(v2);
      var _ := Write([16 * NumBytes(v1) + s2] + LE(v1, NumBytes(v1)));
      var _ := Write(LE(v2, s2));
    }

    /** The length in w bytes (capped at 256^w - 1), then that many bytes of s. */
    method WritePrefixed(s: seq<byte>, width: nat) returns (n: int)
      requires Valid()
      modifies this, data, w
      ensures Valid() && w == old(w) && data == old(data) && close == old(close)
      ensures contents == old(contents) + Prefixed(s, width) && n == |Prefixed(s, width)|
    {
      var m := Cap(|s|, width);
      WriteFixed(m, width);
      var _ := Write(s[..m]);
      n := width + m;
    }

    method WriteString8(s: seq<byte>) returns (n: int)
      requires Valid()
      modifies this, data, w
      ensures Valid() && w == old(w) && data == old(data) && close == old(close)
      ensures contents == old(contents) + Prefixed(s, 1) && n == |Prefixed(s, 1)|
    {
      n := WritePrefixed(s, 1);
    }

    method WriteString16(s: seq<byte>) returns (n: int)
      requires Valid()
      modifies this, data, w
      ensures Valid() && w == old(w) && data == old(data) && close == old(close)
      ensures contents == old(contents) + Prefixed(s, 2) && n == |Prefixed(s, 2)|
    {
      n := WritePrefixed(s, 2);
    }

    method WriteString32(s: seq<byte>) returns (n: int)
      requires Valid()
      modifies this, data, w
      ensures Valid() && w == old(w) && data == old(data) && close == old(close)
      ensures contents == old(contents) + Prefixed(s, 4) && n == |Prefixed(s, 4)|
    {
      n := WritePrefixed(s, 4);
    }

    method WriteBytes8(s: seq<byte>) returns (n: int)
      requires Valid()
      modifies this, data, w
      ensures Valid() && w == old(w) && data == old(data) && close == old(close)
      ensures contents == old(contents) + Prefixed(s, 1) && n == |Prefixed(s, 1)|
    {
      n := WritePrefixed(s, 1);
    }

    method WriteBytes16(s: seq<byte>) returns (n: int)
      requires Valid()
      modifies this, data, w
      ensures Valid() && w == old(w) && data == old(data) && close == old(close)
      ensures contents == old(contents) + Prefixed(s, 2) && n == |Prefixed(s, 2)|
    {
      n := WritePrefixed(s, 2);
    }

    method WriteBytes32(s: seq<byte>) returns (n: int)
      requires Valid()
      modifies this, data, w
      ensures Valid() && w == old(w) && data == old(data) && close == old(close)
      ensures contents == old(contents) + Prefixed(s, 4) && n == |Prefixed(s, 4)|
    {
      n := WritePrefixed(s, 4);
    }

    /** Flush: hands the buffered bytes on; the sink then holds everything written. */
    method Flush()
      requires Valid()
      modifies this, w
      ensures Valid() && w == old(w) && data == old(data) && close == old(close)
      ensures cursor == 0 && contents == old(contents) && w.written == contents
    {
      if cursor > 0 {
        var _ := w.Put(data[..cursor]);
        cursor := 0;
      }
    }

    /** Close: flushes; the sink then holds everything written. */
    method Close()
      requires Valid()
      modifies this, w
      ensures Valid() && w == old(w) && data == old(data)
      ensures cursor == 0 && contents == old(contents) && w.written == contents
    {
      Flush();
    }

    /**
     * Reset(f): flushes to the old sink, which then holds everything written,
     * and starts over in front of f (no longer closing it).
     */
    method Reset(f: Conv.Sink)
      requires Valid()
      modifies this, w
      ensures Valid() && data == old(data) && w == f && !close
      ensures old(w).written == old(contents)
      ensures cursor == 0 && contents == f.written
    {
      Flush();
      close := false;
      w := f;
      contents := f.written;
    }
  }

  // ---------------------------------------------------------------- BytesReader

  datatype SeekResult = Position(pos: int) | SeekError(msg: string)

  /** BytesReader: decodes values from a byte slice, from the cursor on. */
  class BytesReader {
    const data: seq<byte>
    const length: int
    var cursor: int

    /** NewBytesReader(p) */
    constructor(p: seq<byte>)
      ensures data == p && length == |p| && cursor == 0
    {
      data := p;
      length := |p|;
      cursor := 0;
    }

    /**
     * Read(p) (io.Reader): fills p from the cursor; at or near the end it
     * copies what is left and reports io.EOF.
     */
    method Read(p: array<byte>) returns (n: int, eof: bool)
      requires 0 <= cursor && length == |data|
      modifies this, p
      ensures eof <==> old(cursor) + p.Length >= |data|
      ensures n == if !eof then p.Length else if old(cursor) < |data| then |data| - old(cursor) else 0
      ensures cursor == old(cursor) + n
      ensures 0 < n ==> p[..n] == data[old(cursor)..cursor]
      ensures p[n..] == old(p[n..])
    {
      var to := cursor + p.Length;
      if to < length {
        var c := cursor;
        forall i | 0 <= i < p.Length {
          p[i] := data[c + i];
        }
        n := p.Length;
        cursor := c + n;
        eof := false;
      } else {
        n := 0;
        if cursor < length {
          var c := cursor;
          n := length - c;
          forall i | 0 <= i < n {
            p[i] := data[c + i];
          }
          cursor := c + n;
        }
        eof := true;
      }
    }

    /** Readx(x): a copy of the next x bytes. */
    method Readx(x: int) returns (b: seq<byte>)
      requires 0 <= cursor && 0 <= x && cursor + x <= |data|
      modifies this
      ensures b == data[old(cursor)..old(cursor) + x] && cursor == old(cursor) + x
    {
      b := data[cursor..cursor + x];
      cursor := cursor + x;
    }

    /** ReadxRaw(x): the next x bytes of the slice itself. */
    method ReadxRaw(x: int) returns (b: seq<byte>)
      requires 0 <= cursor && 0 <= x && cursor + x <= |data|
      modifies this
      ensures b == data[old(cursor)..old(cursor) + x] && cursor == old(cursor) + x
    {
      cursor := cursor + x;
      b := data[cursor - x..cursor];
    }

    method ReadByte() returns (b: byte)
      requires 0 <= cursor < |data|
      modifies this
      ensures b == data[old(cursor)] && cursor == old(cursor) + 1
    {
      cursor := cursor + 1;
      b := data[cursor - 1];
    }

    method ReadBool() returns (b1: bool)
      requires 0 <= cursor < |data|
      modifies this
      ensures b1 == (data[old(cursor)] > 0) && cursor == old(cursor) + 1
    {
      b1 := data[cursor] > 0;
      cursor := cursor + 1;
    }

    method Read2Bools() returns (b1: bool, b2: bool)
      requires 0 <= cursor < |data|
      modifies this
      ensures (b1, b2) == Unpack2Bools(data[old(cursor)]) && cursor == old(cursor) + 1
    {
      var c := data[cursor];
      cursor := cursor + 1;
      b1, b2 := false, false;
      if c == 1 {
        b1 := true;
      } else if c == 2 {
        b2 := true;
      } else if c == 3 {
        b1, b2 := true, true;
      }
    }

    method Read8Bools() returns (b1: bool, b2: bool, b3: bool, b4: bool, b5: bool, b6: bool, b7: bool, b8: bool)
      requires 0 <= cursor < |data|
      modifies this
      ensures [b1, b2, b3, b4, b5, b6, b7, b8] == Unpack8Bools(data[old(cursor)] as bv8)
      ensures cursor == old(cursor) + 1
    {
      var c := data[cursor] as bv8;
      b1, b2, b3, b4 := c & 1 != 0, c & 2 != 0, c & 4 != 0, c & 8 != 0;
      b5, b6, b7, b8 := c & 16 != 0, c & 32 != 0, c & 64 != 0, c & 128 != 0;
      cursor := cursor + 1;
    }

    method Read2Uint4s() returns (v1: byte, v2: byte)
      requires 0 <= cursor < |data|
      modifies this
      ensures (v1 as bv8, v2 as bv8) == Unpack2Uint4s(data[old(cursor)] as bv8)
      ensures cursor == old(cursor) + 1
    {
      var r := Unpack2Uint4s(data[cursor] as bv8);
      ByteBits(r.0);
      ByteBits(r.1);
      v1, v2 := r.0 as byte, r.1 as byte;
      cursor := cursor + 1;
    }

    /** ReadUTF8 (corrected, see ReadRuneAsWrittenLoses): the bytes of the next encoded rune. */
    method ReadUTF8() returns (b: seq<byte>)
      requires 0 <= cursor < |data| && cursor + RuneLength(data[cursor]) <= |data|
      modifies this
      ensures cursor == old(cursor) + RuneLength(data[old(cursor)]) && b == data[old(cursor)..cursor]
    {
      var k := RuneLength(data[cursor]);
      cursor := cursor + k;
      b := data[cursor - k..cursor];
    }

    method ReadUTF8Raw() returns (b: seq<byte>)
      requires 0 <= cursor < |data| && cursor + RuneLength(data[cursor]) <= |data|
      modifies this
      ensures cursor == old(cursor) + RuneLength(data[old(cursor)]) && b == data[old(cursor)..cursor]
    {
      b := ReadUTF8();
    }

    /** ReadRune (corrected likewise): the next encoded rune, decoded by utf8.DecodeRune. */
    method ReadRune() returns (r: int)
      requires 0 <= cursor < |data| && cursor + RuneLength(data[cursor]) <= |data|
      modifies this
      ensures cursor == old(cursor) + RuneLength(data[old(cursor)])
      ensures r == DecodeRune(data[old(cursor)..cursor])
    {
      if data[cursor] < 128 {
        cursor := cursor + 1;
        r := data[cursor - 1];
      } else {
        var k := RuneLength(data[cursor]);
        cursor := cursor + k;
        r := DecodeRune(data[cursor - k..cursor]);
      }
    }

    /** ReadUint16/24/32/48/64: the next n bytes as a little-endian number. */
    method ReadFixed(n: nat) returns (v: nat)
      requires 0 <= cursor && cursor + n <= |data|
      modifies this
      ensures cursor == old(cursor) + n && v == ValueLE(data[old(cursor)..cursor])
    {
      cursor := cursor + n;
      v := ValueLE(data[cursor - n..cursor]);
    }

    method ReadUint16() returns (v: u16)
      requires 0 <= cursor && cursor + 2 <= |data|
      modifies this
      ensures cursor == old(cursor) + 2 && v == ValueLE(data[old(cursor)..cursor])
    {
      Pow256Table();
      v := ReadFixed(2);
    }

    method ReadUint24() returns (v: u32)
      requires 0 <= cursor && cursor + 3 <= |data|
      modifies this
      ensures cursor == old(cursor) + 3 && v == ValueLE(data[old(cursor)..cursor])
    {
      Pow256Table();
      v := ReadFixed(3);
    }

    method ReadUint32() returns (v: u32)
      requires 0 <= cursor && cursor + 4 <= |data|
      modifies this
      ensures cursor == old(cursor) + 4 && v == ValueLE(data[old(cursor)..cursor])
    {
      Pow256Table();
      v := ReadFixed(4);
    }

    method ReadUint48() returns (v: u64)
      requires 0 <= cursor && cursor + 6 <= |data|
      modifies this
      ensures cursor == old(cursor) + 6 && v == ValueLE(data[old(cursor)..cursor])
    {
      Pow256Table();
      v := ReadFixed(6);
    }

    method ReadUint64() returns (v: u64)
      requires 0 <= cursor && cursor + 8 <= |data|
      modifies this
      ensures cursor == old(cursor) + 8 && v == ValueLE(data[old(cursor)..cursor])
    {
      Pow256Table();
      v := ReadFixed(8);
    }

    method ReadUint16Variable() returns (v: u16)
      requires 0 <= cursor < |data| && (data[cursor] == 255 ==> cursor + 3 <= |data|)
      modifies this
      ensures (v, cursor - old(cursor)) == DecodeUint16Var(data[old(cursor)..])
    {
      ghost var s := data[cursor..];
      var b := ReadByte();
      if b < 255 {
        v := b;
      } else {
        v := ReadUint16();
        assert data[old(cursor) + 1..cursor] == s[1..3];
      }
    }

    method ReadInt16Variable() returns (v: int16)
      requires 0 <= cursor < |data| && (data[cursor] == 255 ==> cursor + 3 <= |data|)
      modifies this
      ensures (v, cursor - old(cursor)) == DecodeInt16Var(data[old(cursor)..])
    {
      ghost var s := data[cursor..];
      var b := ReadByte();
      if b < 255 {
        v := b as int - 127;
      } else {
        var x := ReadUint16();
        v := Signed16(x);
        assert data[old(cursor) + 1..cursor] == s[1..3];
      }
    }

    /** ReadUint64Variable: a length byte, then that many bytes (none unless it is 1 to 8). */
    method ReadUint64Variable() returns (v: u64)
      requires 0 <= cursor < |data| && Readable(data[cursor..], 1, data[cursor])
      modifies this
      ensures (v, cursor - old(cursor)) == DecodeVarint(data[old(cursor)..])
    {
      FieldShift(data, cursor, 1, data[cursor]);
      var s1 := ReadByte();
      v := Field(data, cursor, s1);
      cursor := cursor + s1;
    }

    /** Read2Uint64sVariable: a header byte with both lengths, then both values. */
    method Read2Uint64sVariable() returns (v1: u64, v2: u64)
      requires 0 <= cursor < |data|
      requires Readable(data[cursor..], 1, data[cursor] / 16)
      requires Readable(data[cursor..], 1 + data[cursor] / 16, data[cursor] % 16)
      modifies this
      ensures (v1, v2, cursor - old(cursor)) == DecodeVarint2(data[old(cursor)..])
    {
      DecodeVarint2Shift(data, cursor);
      var h := ReadByte();
      var s1, s2 := h / 16, h % 16;
      v1 := Field(data, cursor, s1);
      cursor := cursor + s1;
      v2 := Field(data, cursor, s2);
      cursor := cursor + s2;
    }

    /** A w-byte length, then that many bytes. */
    method ReadPrefixed(w: nat) returns (b: seq<byte>)
      requires 0 <= cursor <= |data| && PrefixReadable(data[cursor..], w)
      modifies this
      ensures (b, cursor - old(cursor)) == DecodePrefixed(data[old(cursor)..], w)
    {
      ghost var s := data[cursor..];
      assert s[..w] == data[cursor..cursor + w];
      var m := ReadFixed(w);
      b := Readx(m);
      assert b == s[w..w + m];
    }

    method ReadString8() returns (b: seq<byte>)
      requires 0 <= cursor <= |data| && PrefixReadable(data[cursor..], 1)
      modifies this
      ensures (b, cursor - old(cursor)) == DecodePrefixed(data[old(cursor)..], 1)
    {
      b := ReadPrefixed(1);
    }

    method ReadString16() returns (b: seq<byte>)
      requires 0 <= cursor <= |data| && PrefixReadable(data[cursor..], 2)
      modifies this
      ensures (b, cursor - old(cursor)) == DecodePrefixed(data[old(cursor)..], 2)
    {
      b := ReadPrefixed(2);
    }

    method ReadString32() returns (b: seq<byte>)
      requires 0 <= cursor <= |data| && PrefixReadable(data[cursor..], 4)
      modifies this
      ensures (b, cursor - old(cursor)) == DecodePrefixed(data[old(cursor)..], 4)
    {
      b := ReadPrefixed(4);
    }

    method ReadBytes8() returns (b: seq<byte>)
      requires 0 <= cursor <= |data| && PrefixReadable(data[cursor..], 1)
      modifies this
      ensures (b, cursor - old(cursor)) == DecodePrefixed(data[old(cursor)..], 1)
    {
      b := ReadPrefixed(1);
    }

    method ReadBytes16() returns (b: seq<byte>)
      requires 0 <= cursor <= |data| && PrefixReadable(data[cursor..], 2)
      modifies this
      ensures (b, cursor - old(cursor)) == DecodePrefixed(data[old(cursor)..], 2)
    {
      b := ReadPrefixed(2);
    }

    method ReadBytes32() returns (b: seq<byte>)
      requires 0 <= cursor <= |data| && PrefixReadable(data[cursor..], 4)
      modifies this
      ensures (b, cursor - old(cursor)) == DecodePrefixed(data[old(cursor)..], 4)
    {
      b := ReadPrefixed(4);
    }

    /** Discard(x): moves the cursor x bytes on. */
    method Discard(x: int)
      modifies this
      ensures cursor == old(cursor) + x
    {
      cursor := cursor + x;
    }

    /**
     * Seek (io.Seeker): whence 0, 1 and 2 count from the start, the cursor and
     * the end; any other whence, or a negative target, is an error that leaves
     * the cursor alone.
     */
    method Seek(offset: int, whence: int) returns (r: SeekResult)
      modifies this
      ensures !(0 <= whence <= 2) ==> r == SeekError("buffer.BytesReader.Seek: invalid whence") && cursor == old(cursor)
      ensures 0 <= whence <= 2 ==>
        var abs := (if whence == 0 then 0 else if whence == 1 then old(cursor) else length) + offset;
        if abs < 0 then r == SeekError("buffer.BytesReader.Seek: negative position") && cursor == old(cursor)
        else r == Position(abs) && cursor == abs
    {
      var abs: int;
      if whence == 0 {
        abs := offset;
      } else if whence == 1 {
        abs := cursor + offset;
      } else if whence == 2 {
        abs := length + offset;
      } else {
        return SeekError("buffer.BytesReader.Seek: invalid whence");
      }
      if abs < 0 {
        return SeekError("buffer.BytesReader.Seek: negative position");
      }
      cursor := abs;
      r := Position(abs);
    }

    /** EOF: nil (true here) exactly when the cursor is at or past the end. */
    method EOF() returns (atEnd: bool)
      ensures atEnd <==> cursor >= |data|
    {
      atEnd := cursor >= |data|;
    }
  }
}
