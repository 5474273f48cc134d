/** The byte sink and byte source the codec runs over: an append-only buffer
    for `io.Writer` and the bytes not yet consumed for `io.Reader`, plus the
    error values the wire package reports. */
module Streams {
  import opened GoInts

  datatype Option<T> = None | Some(value: T)

  /** The errors the codec can return.  `MessageError` is the wire package's
      `messageError(func, description)`; `NonCanonicalVarInt` and
      `LargerThanMax` are the formatted message errors of `ReadVarInt` and
      `ReadVarBytes`, kept structured instead of as formatted text. */
  datatype Error =
    | EOF                 // io.EOF: no byte was left for a read
    | UnexpectedEOF       // io.ErrUnexpectedEOF: the source ended part-way through a read
    | NonCanonicalVarInt(value: uint64, discriminant: byte, min: uint64)
    | LargerThanMax(fieldName: string, count: uint64, maxAllowed: uint32)
    | MessageError(func: string, description: string)

  datatype Result<T> = Ok(value: T) | Err(error: Error)

  /** The outcome of a read and the input left after it. */
  datatype Read<T> = Read(res: Result<T>, rest: seq<byte>)

  /** The outcome of `io.ReadFull` into a zeroed buffer: the buffer as the
      read leaves it, the error, and the input left after it. */
  datatype Fill = Fill(buf: seq<byte>, err: Option<Error>, rest: seq<byte>)

  /** `k` zero bytes. */
  function Zeros(k: nat): (r: seq<byte>)
    ensures |r| == k
    ensures forall i :: 0 <= i < k ==> r[i] == 0
  {
    if k == 0 then [] else [0] + Zeros(k - 1)
  }

  /** `s` followed by zero bytes up to length `n`. */
  function ZeroPad(s: seq<byte>, n: nat): (r: seq<byte>)
    requires |s| <= n
    ensures |r| == n && r[..|s|] == s
    ensures forall i :: |s| <= i < n ==> r[i] == 0
  {
    s + Zeros(n - |s|)
  }

  /** `io.ReadFull(r, buf)` on a source whose unread bytes are `s`, `buf`
      being a fresh zeroed buffer of `n` bytes.  It succeeds exactly when `n`
      bytes are left; otherwise it consumes everything that is left. */
  function ReadFullAt(s: seq<byte>, n: nat): (f: Fill)
    ensures |f.buf| == n && |f.rest| <= |s|
    ensures f.err == None <==> n <= |s|
    ensures f.err != None ==> f.rest == []
  {
    if n <= |s| then Fill(s[..n], None, s[n..])
    else Fill(ZeroPad(s, n), Some(if |s| == 0 then EOF else UnexpectedEOF), [])
  }

  /** A successful read splits the source: the buffer is what it consumed. */
  lemma ReadFullAtSplits(s: seq<byte>, n: nat)
    requires n <= |s|
    ensures ReadFullAt(s, n).buf + ReadFullAt(s, n).rest == s
  {
  }

  /** A read past the end copies what was left into the front of the buffer
      (the rest stays zero) and reports `EOF` exactly when nothing was left. */
  lemma ReadFullAtShort(s: seq<byte>, n: nat)
    requires |s| < n
    ensures ReadFullAt(s, n).buf == ZeroPad(s, n)
    ensures ReadFullAt(s, n).err == Some(if |s| == 0 then EOF else UnexpectedEOF)
  {
  }

  /** Reading the first `|b|` bytes of `b + tail` returns `b` and leaves `tail`. */
  lemma ReadFullPrefix(b: seq<byte>, tail: seq<byte>)
    ensures ReadFullAt(b + tail, |b|) == Fill(b, None, tail)
  {
  }

  /** Appending `a` and then `b` is appending `a + b`. */
  lemma AppendTwo(b0: seq<byte>, a: seq<byte>, b: seq<byte>)
    ensures (b0 + a) + b == b0 + (a + b)
  {
  }

  /** Successive writes of `a`, `b`, `c` and `d` after `b0` leave `b0`
      followed by the four of them. */
  lemma AppendFour(b0: seq<byte>, a: seq<byte>, b: seq<byte>, c: seq<byte>, d: seq<byte>)
    ensures (((b0 + a) + b) + c) + d == b0 + ((a + b) + (c + d))
  {
  }

  /** An append-only byte buffer standing for the `io.Writer` the codec
      serialises into; every write succeeds. */
  class Writer {
    var bytes: seq<byte>

    constructor ()
      ensures bytes == []
    {
      bytes := [];
    }

    method Write(b: seq<byte>)
      modifies this
      ensures bytes == old(bytes) + b
    {
      bytes := bytes + b;
    }
  }

  /** A byte source standing for the `io.Reader` the codec deserialises
      from: the bytes it has not yet handed out. */
  class Reader {
    var rest: seq<byte>

    constructor (data: seq<byte>)
      ensures rest == data
    {
      rest := data;
    }

    /** `io.ReadFull` into a fresh zeroed buffer of `n` bytes. */
    method ReadFull(n: nat) returns (buf: seq<byte>, err: Option<Error>)
      modifies this
      ensures Fill(buf, err, rest) == ReadFullAt(old(rest), n)
    {
      if n <= |rest| {
        buf, err := rest[..n], None;
        rest := rest[n..];
      } else {
        buf := ZeroPad(rest, n);
        err := Some(if |rest| == 0 then EOF else UnexpectedEOF);
        rest := [];
      }
    }
  }
}
