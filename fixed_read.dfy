/**
 * Length-prefixed fields of the `proxy-io` crate (proxy-io/src/fixed_read.rs):
 * a one-byte length n followed by exactly n bytes, read through a growing
 * vector and written with `write_fixed`.
 *
 * The futures are run to completion: a `Pending` poll resumes later with the
 * same `read`/`len` state, so it changes no outcome and is not modelled. The
 * peer on the other end is a `Peer` (reading) or a `Sink` (writing) that
 * hands over at most `chunk` bytes per call.
 */
module FixedRead {
  import opened Wrappers
  import opened Text
  import opened IoKinds
  import Utf8

  /** What `write_fixed` puts on the wire for `src`: its length cast to `u8`, then `src`. */
  function Frame(src: Bytes): (f: Bytes)
    ensures |f| == 1 + |src| && f[1..] == src
  {
    [|src| % 256] + src
  }

  /** The frame at the front of `s` (payload and what follows), if all of it is there. */
  function SplitFrame(s: Bytes): (r: Option<(Bytes, Bytes)>)
    ensures r.Some? <==> |s| >= 1 && |s| >= 1 + (s[0] as int)
    ensures r.Some? ==> |r.value.0| == s[0] && s == Frame(r.value.0) + r.value.1
  {
    if |s| == 0 || |s| < 1 + (s[0] as int) then None
    else
      var p := s[1..1 + s[0]];
      assert s == Frame(p) + s[1 + s[0]..];
      Some((p, s[1 + s[0]..]))
  }

  /** Every payload of at most 255 bytes is read back exactly, whatever follows it. */
  lemma SplitFrameOf(p: Bytes, rest: Bytes)
    requires |p| <= 255
    ensures SplitFrame(Frame(p) + rest) == Some((p, rest))
  {
    var s := Frame(p) + rest;
    assert s[1..1 + |p|] == p && s[1 + |p|..] == rest;
  }

  /**
   * A longer payload does not survive: its length byte wraps modulo 256,
   * so the reader stops early and leaves the rest of the payload unread.
   */
  lemma LongFrameTruncated(p: Bytes)
    requires |p| >= 256
    ensures SplitFrame(Frame(p)) == Some((p[..|p| % 256], p[|p| % 256..]))
  {
    var s := Frame(p);
    assert s[1..1 + |p| % 256] == p[..|p| % 256];
    assert s[1 + |p| % 256..] == p[|p| % 256..];
  }

  /**
   * `VecReadBuf`: a vector together with how much of its allocation is
   * initialized. Only the counters are modelled; the bytes beyond `vec`
   * are not.
   */
  class VecReadBuf {
    var vec: Bytes
    var capacity: nat
    var numInitialized: nat

    /** Always between the vector's length and its capacity. */
    ghost predicate Valid()
      reads this
    {
      |vec| <= numInitialized <= capacity
    }

    /** `VecReadBuf::new`: the vector's own bytes are the initialized ones. */
    constructor (v: Bytes, cap: nat)
      requires |v| <= cap
      ensures Valid()
      ensures vec == v && capacity == cap && numInitialized == |v|
    {
      vec := v;
      capacity := cap;
      numInitialized := |v|;
    }

    /**
     * `VecReadBuf::reserve`: nothing happens when the spare capacity is
     * enough; otherwise the vector grows and only its length counts as
     * initialized.
     */
    method Reserve(numBytes: nat)
      requires Valid()
      modifies this
      ensures Valid() && vec == old(vec)
      ensures capacity - |vec| >= numBytes
      ensures old(capacity) - |vec| >= numBytes ==>
                capacity == old(capacity) && numInitialized == old(numInitialized)
      ensures old(capacity) - |vec| < numBytes ==>
                capacity == |vec| + numBytes && numInitialized == |vec|
    {
      if capacity - |vec| >= numBytes {
        return;
      }
      numInitialized := |vec|;
      capacity := |vec| + numBytes;
    }

    /** `VecReadBuf::take`: hands the vector over and starts again from an empty one. */
    method Take() returns (v: Bytes)
      requires Valid()
      modifies this
      ensures Valid()
      ensures v == old(vec) && vec == [] && numInitialized == 0 && capacity == 0
    {
      numInitialized := 0;
      v := vec;
      vec := [];
      capacity := 0;
    }

    /**
     * `get_exact_read_buf` then `apply_read_buf` around a read that filled
     * `chunk`: the bytes are appended within the reserved room, and the
     * initialized count covers them.
     */
    method Fill(chunk: Bytes)
      requires Valid() && capacity - |vec| >= |chunk|
      modifies this
      ensures Valid() && capacity == old(capacity)
      ensures vec == old(vec) + chunk
      ensures numInitialized == if old(numInitialized) < |vec| then |vec| else old(numInitialized)
    {
      vec := vec + chunk;
      if numInitialized < |vec| {
        numInitialized := |vec|;
      }
    }
  }

  /**
   * The sending side of a connection: `data` is everything it will send,
   * `pos` how much has been read, `chunk` the most one read returns, and
   * `end` what a read gets after the last byte: `None` for the end of
   * stream, `Some(k)` for an I/O error of kind k.
   */
  class Peer {
    var data: Bytes
    var pos: nat
    var chunk: nat
    var end: Option<IoErrorKind>

    ghost predicate Valid()
      reads this
    {
      pos <= |data| && chunk >= 1
    }

    constructor (d: Bytes, c: nat, e: Option<IoErrorKind>)
      requires c >= 1
      ensures Valid() && data == d && pos == 0 && chunk == c && end == e
    {
      data, pos, chunk, end := d, 0, c, e;
    }

    /** The error a reader reports when the data runs out. */
    function EndError(): IoErrorKind
      reads this
    {
      end.UnwrapOr(UnexpectedEof)
    }

    /**
     * `poll_read` into a buffer with room for `max` bytes: some of the
     * waiting bytes, at least one when any wait and there is room; an
     * empty read is the end of the stream.
     */
    method PollRead(max: nat) returns (r: Result<Bytes, IoErrorKind>)
      requires Valid()
      modifies this`pos
      ensures Valid()
      ensures r.Ok? ==> old(pos) <= pos && |r.value| <= max && r.value == data[old(pos)..pos]
      ensures r.Ok? && |r.value| == 0 && max >= 1 ==> pos == |data| && end == None
      ensures old(pos) < |data| && max >= 1 ==> r.Ok? && |r.value| >= 1
      ensures r.Err? ==> old(pos) == |data| && pos == old(pos) && end == Some(r.error)
    {
      var k := |data| - pos;
      if k > max { k := max; }
      if k > chunk { k := chunk; }
      if k == 0 && max >= 1 && end.Some? {
        return Err(end.value);
      }
      r := Ok(data[pos..pos + k]);
      pos := pos + k;
    }
  }

  /**
   * `poll_read_num_bytes`: reserves room for `numBytes` more bytes and reads
   * at most that many into the vector; the count is what was read.
   */
  method PollReadNumBytes(buf: VecReadBuf, reader: Peer, numBytes: nat) returns (r: Result<nat, IoErrorKind>)
    requires buf.Valid() && reader.Valid()
    modifies buf, reader`pos
    ensures buf.Valid() && reader.Valid()
    ensures r.Ok? ==> r.value <= numBytes && reader.pos == old(reader.pos) + r.value
                      && buf.vec == old(buf.vec) + reader.data[old(reader.pos)..reader.pos]
    ensures r.Ok? && r.value == 0 && numBytes >= 1 ==> reader.pos == |reader.data| && reader.end == None
    ensures old(reader.pos) < |reader.data| && numBytes >= 1 ==> r.Ok? && r.value >= 1
    ensures r.Err? ==> old(reader.pos) == |reader.data| && reader.pos == old(reader.pos)
                       && buf.vec == old(buf.vec) && reader.end == Some(r.error)
  {
    buf.Reserve(numBytes);
    var got := reader.PollRead(numBytes);
    match got {
      case Err(e) =>
        return Err(e);
      case Ok(chunk) =>
        buf.Fill(chunk);
        return Ok(|chunk|);
    }
  }

  /** The bytes a frame reader has taken once the stream ended inside the frame. */
  function Partial(s: Bytes): Bytes
  {
    if |s| == 0 then [] else s[1..]
  }

  /**
   * `read_to_fixed_bytes`: reads the length byte n, then exactly n bytes
   * appended to the vector, and completes with n + 1. Each read asks for
   * at most the bytes still missing, so nothing past the frame is taken.
   * A stream that ends early is `UnexpectedEof` (or the peer's error), with
   * what arrived left in the vector.
   */
  method ReadToFixedBytes(reader: Peer, buf: VecReadBuf) returns (r: Result<nat, IoErrorKind>)
    requires reader.Valid() && buf.Valid()
    modifies reader`pos, buf
    ensures reader.Valid() && buf.Valid()
    ensures var s := old(reader.data[reader.pos..]);
            match SplitFrame(s)
            case Some((p, _)) =>
              r == Ok(|p| + 1) && buf.vec == old(buf.vec) + p && reader.pos == old(reader.pos) + |p| + 1
            case None =>
              r == Err(reader.EndError()) && buf.vec == old(buf.vec) + Partial(s) && reader.pos == |reader.data|
  {
    ghost var s := reader.data[reader.pos..];
    ghost var pos0 := reader.pos;
    ghost var vec0 := buf.vec;
    var first := reader.PollRead(1);
    if first.Err? {
      return Err(first.error);
    }
    if |first.value| == 0 {
      return Err(UnexpectedEof);
    }
    var n: nat := first.value[0];
    var read: nat := 1;
    assert s[0] == n;
    while read != n + 1
      invariant 1 <= read <= n + 1
      invariant reader.Valid() && buf.Valid()
      invariant reader.pos == pos0 + read <= |reader.data|
      invariant buf.vec == vec0 + s[1..read]
      decreases n + 1 - read
    {
      var ret := PollReadNumBytes(buf, reader, n + 1 - read);
      if ret.Err? {
        assert |s| == read;
        return Err(ret.error);
      }
      ReadStep(reader.data, pos0, read, ret.value);
      if ret.value == 0 {
        assert |s| == read;
        return Err(UnexpectedEof);
      }
      read := read + ret.value;
    }
    return Ok(read);
  }

  /** Reading k more bytes of the frame extends what the vector has taken of it. */
  lemma ReadStep(data: Bytes, pos0: nat, read: nat, k: nat)
    requires 1 <= read && pos0 + read + k <= |data|
    ensures data[pos0..][1..read] + data[pos0 + read..pos0 + read + k] == data[pos0..][1..read + k]
  {
    var s := data[pos0..];
    assert data[pos0 + read..pos0 + read + k] == s[read..read + k];
    assert s[1..read] + s[read..read + k] == s[1..read + k];
  }

  /**
   * `read_to_fixed_string`: the same frame, appended to `output`; the
   * result must be UTF-8. Invalid UTF-8 is `InvalidData` and `output` gets
   * its original contents back; an I/O error leaves `output` empty, because
   * its contents were moved into the read buffer and are not restored.
   */
  method ReadToFixedString(reader: Peer, output: Bytes) returns (r: Result<nat, IoErrorKind>, out: Bytes)
    requires reader.Valid() && Utf8.Valid(output)
    modifies reader`pos
    ensures reader.Valid() && Utf8.Valid(out)
    ensures var s := old(reader.data[reader.pos..]);
            match SplitFrame(s)
            case Some((p, _)) =>
              reader.pos == old(reader.pos) + |p| + 1
              && if Utf8.Valid(output + p) then r == Ok(|p| + 1) && out == output + p
                 else r == Err(InvalidData) && out == output
            case None =>
              r == Err(reader.EndError()) && out == [] && reader.pos == |reader.data|
  {
    var buf := new VecReadBuf(output, |output|);
    r := ReadToFixedBytes(reader, buf);
    if r.Err? {
      return r, [];
    }
    var n := r.value - 1;
    var bytes := buf.Take();
    if Utf8.Valid(bytes) {
      return r, bytes;
    }
    // `put_back_original_data`: drop the n payload bytes again.
    out := bytes[..|bytes| - n];
    assert out == output;
    return Err(InvalidData), out;
  }

  /**
   * The receiving side of a connection: `out` is what it has taken,
   * `room` how many more bytes it takes, `chunk` the most one write takes,
   * and `end` what a write gets once `room` is used up: `None` for a write
   * of zero bytes, `Some(k)` for an I/O error of kind k.
   */
  class Sink {
    var out: Bytes
    var room: nat
    var chunk: nat
    var end: Option<IoErrorKind>

    ghost predicate Valid()
      reads this
    {
      chunk >= 1
    }

    constructor (r: nat, c: nat, e: Option<IoErrorKind>)
      requires c >= 1
      ensures Valid() && out == [] && room == r && chunk == c && end == e
    {
      out, room, chunk, end := [], r, c, e;
    }

    /** The error a writer reports when the peer takes no more. */
    function EndError(): IoErrorKind
      reads this
    {
      end.UnwrapOr(WriteZero)
    }

    /** `poll_write`: takes a non-empty prefix of `src` while there is room. */
    method PollWrite(src: Bytes) returns (r: Result<nat, IoErrorKind>)
      requires Valid()
      modifies this`out, this`room
      ensures Valid()
      ensures r.Ok? ==> r.value <= |src| && out == old(out) + src[..r.value] && room == old(room) - r.value
      ensures r.Ok? && r.value == 0 ==> src == [] || (old(room) == 0 && end == None)
      ensures old(room) > 0 && src != [] ==> r.Ok? && r.value >= 1
      ensures r.Err? ==> old(room) == 0 && src != [] && end == Some(r.error) && out == old(out) && room == 0
    {
      var k := |src|;
      if k > room { k := room; }
      if k > chunk { k := chunk; }
      if k == 0 && src != [] && end.Some? {
        return Err(end.value);
      }
      out := out + src[..k];
      room := room - k;
      return Ok(k);
    }
  }

  /**
   * `WriteFixed`: writes the length byte, then all of `src` in order. A
   * write that takes nothing is `WriteZero` (or the peer's error), with what
   * was taken so far already sent.
   */
  method WriteFixed(w: Sink, src: Bytes) returns (r: Result<(), IoErrorKind>)
    requires w.Valid()
    modifies w`out, w`room
    ensures w.Valid()
    ensures old(w.room) >= |Frame(src)| ==> r == Ok(()) && w.out == old(w.out) + Frame(src)
    ensures old(w.room) < |Frame(src)| ==>
              r == Err(w.EndError()) && w.out == old(w.out) + Frame(src)[..old(w.room)]
  {
    ghost var out0 := w.out;
    ghost var room0 := w.room;
    ghost var f := Frame(src);
    var n := w.PollWrite([|src| % 256]);
    if n.Err? {
      return Err(n.error);
    }
    if n.value == 0 {
      return Err(WriteZero);
    }
    var buf := src;
    ghost var sent: nat := 0;
    while buf != []
      invariant w.Valid()
      invariant sent <= |src| && buf == src[sent..]
      invariant w.out == out0 + f[..1 + sent]
      invariant w.room == room0 - (1 + sent)
      decreases |buf|
    {
      var m := w.PollWrite(buf);
      if m.Err? {
        return Err(m.error);
      }
      WrittenStep(src, sent, m.value);
      buf := buf[m.value..];
      sent := sent + m.value;
      if m.value == 0 {
        return Err(WriteZero);
      }
    }
    assert f[..1 + |src|] == f;
    return Ok(());
  }

  /** Writing the next k bytes of `src` after the first `sent` extends the frame written so far. */
  lemma WrittenStep(src: Bytes, sent: nat, k: nat)
    requires sent + k <= |src|
    ensures Frame(src)[..1 + sent] + src[sent..][..k] == Frame(src)[..1 + sent + k]
    ensures src[sent..][k..] == src[sent + k..]
  {
  }
}
