/**
 * The in-memory stream of the `proxy-io` crate (proxy-io/src/memio.rs):
 * writes append to `inner`, reads consume it from `pos` on.
 */
module MemIo {
  import opened Wrappers
  import Text
  import opened IoKinds

  class Bytes {
    var inner: Text.Bytes
    var pos: nat

    ghost predicate Valid()
      reads this
    {
      pos <= |inner|
    }

    /** What is written and not yet read, in order. */
    ghost function Unread(): Text.Bytes
      reads this
      requires Valid()
    {
      inner[pos..]
    }

    /** `test_bytes`: an empty stream. */
    constructor TestBytes()
      ensures Valid() && inner == [] && pos == 0 && Unread() == []
    {
      inner := [];
      pos := 0;
    }

    /**
     * `poll_read` into a buffer with `remaining` free bytes: copies as many
     * unread bytes as fit, never fails, and reads nothing (end of stream)
     * once everything written has been read.
     */
    method PollRead(remaining: nat) returns (r: Result<Text.Bytes, IoErrorKind>)
      requires Valid()
      modifies this`pos
      ensures Valid() && r.Ok?
      ensures |r.value| == if |inner| - old(pos) < remaining then |inner| - old(pos) else remaining
      ensures pos == old(pos) + |r.value| && r.value == inner[old(pos)..pos]
      ensures r.value + Unread() == old(Unread())
    {
      var len := |inner| - pos;
      if remaining < len {
        len := remaining;
      }
      r := Ok(inner[pos..pos + len]);
      pos := pos + len;
    }

    /** `poll_write`: takes the whole slice and leaves the read position alone. */
    method PollWrite(buf: Text.Bytes) returns (r: Result<nat, IoErrorKind>)
      requires Valid()
      modifies this`inner
      ensures Valid() && r == Ok(|buf|)
      ensures inner == old(inner) + buf
      ensures Unread() == old(Unread()) + buf
    {
      inner := inner + buf;
      return Ok(|buf|);
    }

    /** `poll_flush`: nothing is buffered, so nothing to do. */
    method PollFlush() returns (r: Result<(), IoErrorKind>)
      requires Valid()
      ensures r == Ok(())
    {
      return Ok(());
    }

    /** `poll_shutdown`: succeeds and closes nothing; later reads and writes behave as before. */
    method PollShutdown() returns (r: Result<(), IoErrorKind>)
      requires Valid()
      ensures r == Ok(())
    {
      return Ok(());
    }
  }
}
