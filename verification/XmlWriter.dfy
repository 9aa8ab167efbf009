/** `xml_buffered_writer` of pugixml: whatever falls into which chunk, the sink receives the conversion of everything
    that was written. */
module XmlWriter {
  import opened Bytes
  import opened Utf8
  import opened XmlTranscode

  /** `bufcapacity`: 10240 bytes shared between one buffer byte and four scratch bytes a character. */
  const BUFCAPACITY: nat := 10240 / (1 + 4)
  const SCRATCH_SIZE: nat := 4 * BUFCAPACITY

  /** What may be handed to the writer: anything if the text is not converted, whole code points otherwise. */
  ghost predicate Accepts(e: Encoding, data: bytes) {
    e.Native? || WellFormed(data)
  }

  lemma AcceptsJoin(e: Encoding, a: bytes, b: bytes)
    requires Accepts(e, a) && Accepts(e, b)
    ensures Accepts(e, a + b)
  {
    if !e.Native? {
      JoinWellFormed(a, b);
    }
  }

  /** `sink` and `pending` make up `written`: the sink has the conversion of the part that has left the buffer. */
  ghost predicate Splits(e: Encoding, sink: bytes, gone: bytes, pending: bytes, written: bytes) {
    Accepts(e, gone) && Accepts(e, pending) && sink == Transcode(e, gone) && written == gone + pending
  }

  lemma Moves(e: Encoding, sink: bytes, gone: bytes, pending: bytes, written: bytes)
    requires Splits(e, sink, gone, pending, written)
    ensures Splits(e, sink + Transcode(e, pending), written, [], written)
  {
    hide WellFormed, Transcode;
    TranscodeSplits(e, gone, pending);
    AcceptsJoin(e, gone, pending);
    AcceptsNothing(e);
    assert written + [] == written;
  }

  lemma AcceptsNothing(e: Encoding)
    ensures Accepts(e, [])
  {
    EmptyWellFormed();
  }

  lemma Grows(e: Encoding, sink: bytes, gone: bytes, pending: bytes, written: bytes, more: bytes)
    requires Splits(e, sink, gone, pending, written) && Accepts(e, more)
    ensures Splits(e, sink, gone, pending + more, written + more)
  {
    hide WellFormed, Transcode;
    AcceptsJoin(e, pending, more);
    assert gone + (pending + more) == (gone + pending) + more;
  }

  lemma Prefix(b: bytes, data: bytes, n: nat, m: nat)
    requires m <= n <= |data| && b == data[..n]
    ensures b[..m] == data[..m]
  {
  }

  class Writer {
    const encoding: Encoding
    const buffer: array<byte>
    var bufsize: nat
    /** The bytes handed to the `xml_writer` of the user. */
    var sink: bytes
    ghost var gone: bytes
    /** Everything written so far. */
    ghost var written: bytes

    ghost predicate Valid()
      reads this, buffer
    {
      && buffer.Length == BUFCAPACITY && bufsize <= BUFCAPACITY
      && Splits(encoding, sink, gone, buffer[..bufsize], written)
    }

    constructor (encoding: Encoding)
      ensures Valid() && written == [] && sink == [] && fresh(buffer) && this.encoding == encoding
    {
      this.encoding := encoding;
      buffer := new byte[BUFCAPACITY];
      bufsize, sink, gone, written := 0, [], [], [];
      new;
      AcceptsNothing(encoding);
      assert buffer[..0] == [];
    }

    /** `flush(data, size)`: one chunk, which must fit the scratch area if it is converted. */
    method FlushChunk(data: bytes)
      requires encoding.Native? || |data| <= BUFCAPACITY
      modifies this`sink
      ensures sink == old(sink) + Transcode(encoding, data)
    {
      if data == [] {
        return;
      }
      if encoding.Native? {
        sink := sink + data;
      } else {
        var result := ConvertBufferOutput(data, 0, encoding);
        assert |result| <= SCRATCH_SIZE;
        sink := sink + result;
      }
    }

    method Flush()
      requires Valid()
      modifies this`sink, this`bufsize, this`gone
      ensures Valid() && bufsize == 0 && sink == Transcode(encoding, written)
    {
      hide Transcode, WellFormed;
      Moves(encoding, sink, gone, buffer[..bufsize], written);
      FlushChunk(buffer[..bufsize]);
      bufsize, gone := 0, written;
      assert buffer[..0] == [];
    }

    /** Copy `data` behind the pending text. */
    method Append(data: bytes)
      requires Valid() && Accepts(encoding, data) && bufsize + |data| <= BUFCAPACITY
      modifies this`bufsize, this`written, buffer
      ensures Valid() && written == old(written) + data && bufsize == old(bufsize) + |data|
    {
      hide Splits, WellFormed;
      Grows(encoding, sink, gone, buffer[..bufsize], written, data);
      ghost var pending := buffer[..bufsize];
      for k := 0 to |data|
        invariant buffer[..bufsize] == pending
        invariant forall j :: 0 <= j < k ==> buffer[bufsize + j] == data[j]
        modifies buffer
      {
        buffer[bufsize + k] := data[k];
      }
      assert buffer[..bufsize + |data|] == pending + data;
      bufsize, written := bufsize + |data|, written + data;
    }

    /** `write_direct`: what does not fit is sent in chunks that end between code points. */
    method WriteDirect(data: bytes)
      requires Valid() && Accepts(encoding, data)
      modifies this, buffer
      ensures Valid() && written == old(written) + data
    {
      hide Transcode, WellFormed, Splits;
      Flush();
      if |data| > BUFCAPACITY {
        if encoding.Native? {
          SendAll(data);
          return;
        }
        SendChunks(data);
      } else {
        Append(data);
      }
    }

    /** The fast path for large native chunks. */
    method SendAll(data: bytes)
      requires Valid() && encoding.Native? && bufsize == 0
      modifies this`sink, this`gone, this`written
      ensures Valid() && written == old(written) + data
    {
      sink, gone, written := sink + data, written + data, written + data;
    }

    /** One chunk past the buffer. */
    method SendChunk(chunk: bytes)
      requires Valid() && bufsize == 0 && Accepts(encoding, chunk) && |chunk| <= BUFCAPACITY
      modifies this`sink, this`gone, this`written
      ensures Valid() && written == old(written) + chunk
    {
      hide Transcode, WellFormed;
      assert buffer[..bufsize] == [];
      Grows(encoding, sink, gone, [], written, chunk);
      assert [] + chunk == chunk;
      Moves(encoding, sink, gone, chunk, written + chunk);
      FlushChunk(chunk);
      gone, written := written + chunk, written + chunk;
    }

    method SendChunks(data: bytes)
      requires Valid() && bufsize == 0 && !encoding.Native? && WellFormed(data)
      modifies this, buffer
      ensures Valid() && written == old(written) + data
    {
      hide Transcode, WellFormed, Splits;
      var rest := data;
      while |rest| > BUFCAPACITY
        invariant Valid() && bufsize == 0 && WellFormed(rest)
        invariant written + rest == old(written) + data
        decreases |rest|
      {
        var chunkSize := GetValidLength(rest, BUFCAPACITY);
        assert chunkSize > 0;
        SendChunk(rest[..chunkSize]);
        assert rest[..chunkSize] + rest[chunkSize..] == rest;
        rest := rest[chunkSize..];
      }
      Append(rest);
    }

    method WriteBuffer(data: bytes)
      requires Valid() && Accepts(encoding, data)
      modifies this, buffer
      ensures Valid() && written == old(written) + data
    {
      hide Splits, WellFormed;
      if bufsize + |data| <= BUFCAPACITY {
        Append(data);
      } else {
        WriteDirect(data);
      }
    }

    /** `write(d0)` to `write(d0, …, d5)` */
    method Write(d: bytes)
      requires Valid() && 1 <= |d| <= 6 && Accepts(encoding, d)
      modifies this, buffer
      ensures Valid() && written == old(written) + d
    {
      hide Splits, WellFormed;
      if bufsize > BUFCAPACITY - |d| {
        Flush();
      }
      Append(d);
    }

    /** The copying loop of `write_string`, up to the end of the string or of the buffer. */
    method CopyIn(data: bytes) returns (length: nat)
      requires Valid()
      modifies buffer
      ensures Valid() && length <= |data| && bufsize + length <= BUFCAPACITY
      ensures length == |data| || bufsize + length == BUFCAPACITY
      ensures buffer[bufsize..bufsize + length] == data[..length]
    {
      hide Splits;
      length := 0;
      ghost var pending := buffer[..bufsize];
      while length < |data| && bufsize + length < BUFCAPACITY
        invariant length <= |data| && bufsize + length <= BUFCAPACITY
        invariant buffer[..bufsize] == pending
        invariant forall j :: 0 <= j < length ==> buffer[bufsize + j] == data[j]
      {
        buffer[bufsize + length] := data[length];
        length := length + 1;
      }
    }

    /** `write_string`: fill the buffer, then step back to the last code point that is known to be whole. */
    method WriteString(data: bytes)
      requires Valid() && Accepts(encoding, data) && '\0' !in data
      modifies this, buffer
      ensures Valid() && written == old(written) + data
    {
      hide Splits, WellFormed;
      var length := CopyIn(data);
      if bufsize + length < BUFCAPACITY {
        assert data[..length] == data;
        Take(data, length);
      } else {
        Backtrack(data, length);
      }
    }

    method Backtrack(data: bytes, length: nat)
      requires Valid() && Accepts(encoding, data) && length <= |data| && bufsize + length <= BUFCAPACITY
      requires buffer[bufsize..bufsize + length] == data[..length]
      modifies this, buffer
      ensures Valid() && written == old(written) + data
    {
      hide Splits, WellFormed;
      ghost var before := written;
      var valid := GetValidLength(data, length);
      Prefix(buffer[bufsize..bufsize + length], data, length, valid);
      assert buffer[bufsize..bufsize + length][..valid] == buffer[bufsize..bufsize + valid];
      Take(data[..valid], valid);
      WriteDirect(data[valid..]);
      assert before + data[..valid] + data[valid..] == before + (data[..valid] + data[valid..]);
      assert data[..valid] + data[valid..] == data;
    }

    /** `bufsize = offset` after the bytes have been copied. */
    method Take(ghost data: bytes, length: nat)
      requires Valid() && Accepts(encoding, data) && length == |data| && bufsize + length <= BUFCAPACITY
      requires buffer[bufsize..bufsize + length] == data
      modifies this`bufsize, this`written
      ensures Valid() && written == old(written) + data && bufsize == old(bufsize) + length
    {
      hide Splits, WellFormed;
      Grows(encoding, sink, gone, buffer[..bufsize], written, data);
      assert buffer[..bufsize + length] == buffer[..bufsize] + data;
      bufsize, written := bufsize + length, written + data;
    }
  }

  // ----- whole runs -----

  datatype Call = Write(d: bytes) | WriteBuffer(data: bytes) | WriteString(text: bytes)
  {
    function Data(): bytes {
      match this
      case Write(d) => d
      case WriteBuffer(data) => data
      case WriteString(text) => text
    }

    ghost predicate Legal(e: Encoding) {
      Accepts(e, Data()) && (Write? ==> 1 <= |d| <= 6) && (WriteString? ==> '\0' !in text)
    }
  }

  function Concat(calls: seq<Call>): bytes {
    if calls == [] then [] else Concat(calls[..|calls| - 1]) + calls[|calls| - 1].Data()
  }

  /** Any sequence of calls and a final flush: the sink has the conversion of the concatenation. */
  method Output(calls: seq<Call>, encoding: Encoding) returns (sink: bytes)
    requires forall c :: c in calls ==> c.Legal(encoding)
    ensures sink == Transcode(encoding, Concat(calls))
  {
    hide Transcode, Splits, WellFormed;
    var w := new Writer(encoding);
    for i := 0 to |calls|
      invariant w.Valid() && w.encoding == encoding && w.written == Concat(calls[..i])
      invariant fresh(w) && fresh(w.buffer)
    {
      assert calls[i] in calls;
      assert calls[..i + 1][..i] == calls[..i];
      match calls[i]
      case Write(d) => w.Write(d);
      case WriteBuffer(data) => w.WriteBuffer(data);
      case WriteString(text) => w.WriteString(text);
    }
    assert calls[..|calls|] == calls;
    w.Flush();
    sink := w.sink;
  }
}
