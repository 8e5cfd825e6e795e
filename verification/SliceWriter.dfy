/** src/smc/panic_hook.rs: the fixed buffer the panic message is formatted into. */
module SliceWriter {
  class Writer {
    const buf: array<int>
    var pos: nat
    // Everything it was asked to write.
    ghost var asked: seq<int>

    // The buffer holds as much of the message as fits, from its beginning.
    ghost predicate Valid()
      reads this, buf
    {
      && pos == (if |asked| <= buf.Length then |asked| else buf.Length)
      && buf[..pos] == asked[..pos]
    }

    constructor (buf: array<int>)
      ensures Valid() && this.buf == buf && asked == [] && pos == 0
    {
      this.buf := buf;
      pos := 0;
      asked := [];
    }

    // What does not fit is dropped; nothing outside the buffer is touched.
    method WriteStr(bytes: seq<int>)
      requires Valid()
      modifies this, buf
      ensures Valid() && asked == old(asked) + bytes
    {
      var remaining := buf.Length - pos;
      var take := if |bytes| <= remaining then |bytes| else remaining;
      if take > 0 {
        var start := pos;
        for i := 0 to take
          invariant pos == start && asked == old(asked)
          invariant buf[..start] == old(buf[..start])
          invariant buf[start..start + i] == bytes[..i]
        {
          buf[start + i] := bytes[i];
        }
        pos := pos + take;
      }
      asked := asked + bytes;
    }
  }
}
