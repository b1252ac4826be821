/**
 * The two string streams the codec works through: an output stream that
 * `write` appends to, and an input stream whose `read` copies bytes out from a
 * read position and sets its fail flag when fewer bytes remain than asked for.
 *
 * `InState` is the input stream's state as a value, and `ReadInto` the effect of
 * one `read` on it; the class `InputStream` carries the same state in fields.
 */
module Streams {
  import opened Wire

  /** Contents, read position and fail flag of an input string stream. */
  datatype InState = InState(data: Bytes, pos: nat, failed: bool)
  {
    ghost predicate Valid() { pos <= |data| }

    /** Bytes not yet read. */
    function Remaining(): nat
      requires Valid()
    {
      |data| - pos
    }
  }

  /**
   * A fresh stream over `data`: positioned at the start, not failed. The
   * ensures hands every reader of a fresh stream these facts directly, so the
   * verifier need not unfold `Open` to find them.
   */
  function Open(data: Bytes): (st: InState)
    ensures st.Valid() && st.Remaining() == |data| && !st.failed
  {
    InState(data, 0, false)
  }

  /**
   * `read(dest, |dest|)` on a stream in state `st`; the result is the new
   * contents of the destination buffer and the new state. A failed stream reads
   * nothing. Otherwise, when fewer than `|dest|` bytes remain, the remaining ones
   * are copied to the front of the buffer, the rest of the buffer keeps its
   * contents, and the stream ends up at its end with the fail flag set.
   */
  function ReadInto(st: InState, dest: Bytes): (r: (Bytes, InState))
    requires st.Valid()
    ensures |r.0| == |dest|
    ensures r.1.Valid() && r.1.data == st.data && st.pos <= r.1.pos
    ensures r.1.failed <==> st.failed || |dest| > st.Remaining()
    ensures !r.1.failed ==> r.0 == st.data[st.pos..r.1.pos] && r.1.pos == st.pos + |dest|
  {
    if st.failed then (dest, st)
    else if |dest| <= st.Remaining() then
      (st.data[st.pos..st.pos + |dest|], st.(pos := st.pos + |dest|))
    else
      var got := st.data[st.pos..];
      (got + dest[|got|..], st.(pos := |st.data|, failed := true))
  }

  /** `std::istringstream` over a byte string. */
  class InputStream {
    const data: Bytes
    var pos: nat
    var failed: bool

    function State(): InState
      reads this
    {
      InState(data, pos, failed)
    }

    constructor (s: Bytes)
      ensures State() == Open(s)
    {
      data := s;
      pos := 0;
      failed := false;
    }

    /** `read(&dest[0], |dest|)`: returns the buffer's new contents. */
    method Read(dest: Bytes) returns (filled: Bytes)
      requires State().Valid()
      modifies this
      ensures (filled, State()) == ReadInto(old(State()), dest)
    {
      if failed {
        filled := dest;
      } else if |dest| <= |data| - pos {
        filled := data[pos..pos + |dest|];
        pos := pos + |dest|;
      } else {
        var got := data[pos..];
        filled := got + dest[|got|..];
        pos := |data|;
        failed := true;
      }
    }
  }

  /** `std::ostringstream`: the bytes written so far. */
  class OutputStream {
    var buf: Bytes

    constructor ()
      ensures buf == []
    {
      buf := [];
    }

    /** `write(src, n)`: appends the first `n` bytes of `src`. */
    method Write(src: Bytes, n: nat)
      requires n <= |src|
      modifies this
      ensures buf == old(buf) + src[..n]
    {
      buf := buf + src[..n];
    }
  }
}
