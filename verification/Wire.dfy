/** A client connection as the proxy reads it: bytes arrive from the network in arbitrary pieces, a
    buffered reader keeps what it has not handed out yet, and writes go straight out. */
module Wire {
  newtype byte = b: int | 0 <= b < 256

  function Flatten(chunks: seq<seq<byte>>): seq<byte> {
    if chunks == [] then [] else chunks[0] + Flatten(chunks[1..])
  }

  lemma {:induction false} Slices(s: seq<byte>, i: nat, n: nat)
    requires i + n <= |s|
    ensures s[i..][..n] == s[i..i + n] && s[i..][n..] == s[i + n..]
    ensures n > 0 ==> s[i..][0] == s[i]
  {
  }

  class BufferedConn {
    const size: nat                 // capacity of the buffer
    var buf: seq<byte>              // read from the network, not yet handed out
    var chunks: seq<seq<byte>>      // what network reads will find, until the end of the stream
    var out: seq<byte>              // written to the client

    ghost predicate Valid()
      reads this
    {
      size > 0 && |buf| <= size && forall i :: 0 <= i < |chunks| ==> chunks[i] != []
    }

    /** All the client has sent and will send that was not handed out yet. */
    ghost function Stream(): seq<byte>
      reads this
    {
      buf + Flatten(chunks)
    }

    constructor (size: nat, chunks: seq<seq<byte>>)
      requires size > 0 && forall i :: 0 <= i < |chunks| ==> chunks[i] != []
      ensures Valid() && Stream() == Flatten(chunks) && out == []
    {
      this.size := size;
      this.chunks := chunks;
      buf, out := [], [];
    }

    method Write(data: seq<byte>)
      modifies this`out
      ensures out == old(out) + data
    {
      out := out + data;
    }

    /** One read from the network: some of what has arrived, or nothing at the end. */
    method NetRead(max: nat) returns (data: seq<byte>)
      requires Valid() && max > 0
      modifies this`chunks
      ensures Valid()
      ensures |data| <= max && data + Flatten(chunks) == old(Flatten(chunks))
      ensures data == [] <==> old(Flatten(chunks)) == []
    {
      if chunks == [] {
        return [];
      }
      var first := chunks[0];
      if |first| <= max {
        data := first;
        chunks := chunks[1..];
      } else {
        data := first[..max];
        chunks := [first[max..]] + chunks[1..];
        assert first == data + first[max..];
      }
    }

    /** `bufio.Reader.Read`: hands out buffered bytes, or makes one network read, directly if the
        caller's space is as large as the buffer. */
    method Read(n: nat) returns (eof: bool, data: seq<byte>)
      requires Valid()
      modifies this`buf, this`chunks
      ensures Valid()
      ensures eof <==> n > 0 && old(Stream()) == []
      ensures |data| <= n && data + Stream() == old(Stream())
      ensures n > 0 && !eof ==> data != []
    {
      if n == 0 {
        return false, [];
      }
      if buf == [] {
        if n >= size {
          data := NetRead(n);
          return data == [], data;
        }
        buf := NetRead(size);
        if buf == [] {
          return true, [];
        }
      }
      var k := if n <= |buf| then n else |buf|;
      data := buf[..k];
      assert buf == data + buf[k..];
      buf := buf[k..];
      return false, data;
    }

    /** `io.ReadFull`: exactly the next n bytes however they arrive, or failure with nothing left. */
    method ReadFull(n: nat) returns (ok: bool, data: seq<byte>)
      requires Valid()
      modifies this`buf, this`chunks
      ensures Valid()
      ensures ok <==> n <= |old(Stream())|
      ensures ok ==> data == old(Stream())[..n] && Stream() == old(Stream())[n..]
      ensures !ok ==> Stream() == []
    {
      data := [];
      while |data| < n
        invariant Valid() && |data| <= n
        invariant data + Stream() == old(Stream())
        decreases n - |data|
      {
        var eof, more := Read(n - |data|);
        if eof {
          return false, data;
        }
        data := data + more;
      }
      return true, data;
    }

    method ReadByte() returns (ok: bool, b: byte)
      requires Valid()
      modifies this`buf, this`chunks
      ensures Valid()
      ensures ok <==> old(Stream()) != []
      ensures ok ==> b == old(Stream())[0] && Stream() == old(Stream())[1..]
      ensures !ok ==> Stream() == []
    {
      var data;
      ok, data := ReadFull(1);
      b := if ok then data[0] else 0;
    }

    /** `bufio.Reader.Peek(1)`: looks at the first byte and takes nothing. */
    method Peek() returns (ok: bool, b: byte)
      requires Valid()
      modifies this`buf, this`chunks
      ensures Valid() && Stream() == old(Stream())
      ensures ok <==> Stream() != []
      ensures ok ==> b == Stream()[0]
    {
      if buf == [] {
        buf := NetRead(size);
      }
      ok := buf != [];
      b := if ok then buf[0] else 0;
    }
  }
}
