/** The ring buffer of the serial terminal (apps/init/serial_tty/main.c). */
module SerialRing {
  const SERIAL_BUF_SIZE: nat := 42

  datatype Ring = Ring(buf: seq<char>, write_pos: nat, read_pos: nat)

  predicate InBounds(r: Ring) {
    |r.buf| == SERIAL_BUF_SIZE && r.write_pos < SERIAL_BUF_SIZE && r.read_pos < SERIAL_BUF_SIZE
  }

  /** The characters waiting, oldest first. */
  function Content(r: Ring): seq<char>
    requires InBounds(r)
  {
    if r.read_pos <= r.write_pos then r.buf[r.read_pos..r.write_pos]
    else r.buf[r.read_pos..] + r.buf[..r.write_pos]
  }

  /** The test of serial_loop for a full buffer. */
  predicate Full(r: Ring) {
    r.write_pos + 1 == r.read_pos || (r.read_pos == 0 && r.write_pos >= SERIAL_BUF_SIZE - 1)
  }

  /** serial_loop puts a character in. */
  function Put(r: Ring, c: char): (p: Ring)
    requires InBounds(r)
    ensures InBounds(p)
  {
    Ring(r.buf[r.write_pos := c], if r.write_pos + 1 >= SERIAL_BUF_SIZE then 0 else r.write_pos + 1, r.read_pos)
  }

  /** The first copy of serial_pdx_read: how much. */
  function FirstLen(r: Ring, size: nat): nat
    requires InBounds(r)
  {
    var len := if r.write_pos > r.read_pos then r.write_pos - r.read_pos else SERIAL_BUF_SIZE - r.read_pos;
    if len > size then size else len
  }

  datatype Taken = Taken(out: seq<char>, ring: Ring)

  function TakeFirst(r: Ring, size: nat): Taken
    requires InBounds(r)
  {
    var len := FirstLen(r, size);
    Taken(r.buf[r.read_pos..r.read_pos + len],
          r.(read_pos := if r.read_pos + len >= SERIAL_BUF_SIZE then 0 else r.read_pos + len))
  }

  /** The condition for the second copy, when `total` characters have been taken. */
  predicate NeedsSecond(r: Ring, size: nat, total: nat) {
    r.write_pos < r.read_pos && size > total
  }

  /** The test for a full buffer is exact: one slot always stays unused. */
  lemma FullMeans(r: Ring)
    requires InBounds(r)
    ensures Full(r) <==> |Content(r)| == SERIAL_BUF_SIZE - 1
    ensures |Content(r)| <= SERIAL_BUF_SIZE - 1
    ensures Content(r) == [] <==> r.read_pos == r.write_pos
  {
  }

  /** A character put into a buffer that is not full comes last and displaces nothing. */
  lemma PutAppends(r: Ring, c: char)
    requires InBounds(r) && !Full(r)
    ensures Content(Put(r, c)) == Content(r) + [c]
  {
    var p := Put(r, c);
    if r.read_pos <= r.write_pos {
      if p.write_pos == 0 {
        assert p.buf[r.read_pos..] == r.buf[r.read_pos..r.write_pos] + [c];
      }
    } else {
      assert p.buf[..p.write_pos] == r.buf[..r.write_pos] + [c];
      assert p.buf[r.read_pos..] == r.buf[r.read_pos..];
    }
  }

  /** Reading takes a prefix of what is there, something unless there is nothing or no room, and
      leaves the rest. After the first copy there is never a reason for the second. */
  lemma TakeTakesPrefix(r: Ring, size: nat)
    requires InBounds(r) && r.read_pos != r.write_pos
    ensures var t := TakeFirst(r, size);
            && InBounds(t.ring)
            && t.out + Content(t.ring) == Content(r)
            && |t.out| <= size && (t.out == [] ==> size == 0)
            && !NeedsSecond(t.ring, size, |t.out|)
  {
    var t, len := TakeFirst(r, size), FirstLen(r, size);
    if r.read_pos < r.write_pos {
      assert r.buf[r.read_pos..r.read_pos + len] + r.buf[r.read_pos + len..r.write_pos] ==
             r.buf[r.read_pos..r.write_pos];
    } else if r.read_pos + len == SERIAL_BUF_SIZE {
      assert t.out == r.buf[r.read_pos..] && Content(t.ring) == r.buf[..r.write_pos];
    } else {
      assert r.buf[r.read_pos..r.read_pos + len] + r.buf[r.read_pos + len..] == r.buf[r.read_pos..];
    }
  }

  /** How much a read delivers: all that is there and fits, except that it stops at the end of the
      array. */
  lemma TakeAmount(r: Ring, size: nat)
    requires InBounds(r) && r.read_pos != r.write_pos
    ensures var t := TakeFirst(r, size);
            var room := SERIAL_BUF_SIZE - r.read_pos;
            |t.out| == if size <= |Content(r)| && size <= room then size
                       else if |Content(r)| <= room then |Content(r)| else room
  {
  }

  /** The variables of the terminal, outside the protocol that guards them. */
  class SerialBuffer {
    const serial_buf: array<char>
    var write_pos: nat
    var read_pos: nat

    ghost function Value(): Ring
      reads this, serial_buf
    {
      Ring(serial_buf[..], write_pos, read_pos)
    }

    ghost predicate Valid()
      reads this, serial_buf
    {
      InBounds(Value())
    }

    constructor ()
      ensures Valid() && Content(Value()) == [] && fresh(serial_buf)
    {
      serial_buf := new char[SERIAL_BUF_SIZE](_ => '\0');
      write_pos, read_pos := 0, 0;
    }

    /** serial_loop between getting and releasing the lock: a full buffer refuses the character. */
    method Add(c: char) returns (added: bool)
      requires Valid()
      modifies this, serial_buf
      ensures Valid() && added == !Full(old(Value()))
      ensures Value() == if added then Put(old(Value()), c) else old(Value())
      ensures Content(Value()) == if added then old(Content(Value())) + [c] else old(Content(Value()))
      ensures added <==> |old(Content(Value()))| < SERIAL_BUF_SIZE - 1
    {
      FullMeans(Value());
      if write_pos + 1 == read_pos || (read_pos == 0 && write_pos >= SERIAL_BUF_SIZE - 1) {
        return false;
      }
      PutAppends(Value(), c);
      serial_buf[write_pos] := c;
      write_pos := write_pos + 1;
      if write_pos >= SERIAL_BUF_SIZE {
        write_pos := 0;
      }
      added := true;
    }

    /** serial_pdx_read once there is data, with both of its copies. */
    method Read(buf: array<char>, size: nat) returns (total_len: nat)
      requires Valid() && read_pos != write_pos && buf != serial_buf && size <= buf.Length
      modifies this`read_pos, buf
      ensures Valid() && total_len <= size && (size > 0 ==> total_len > 0)
      ensures buf[..total_len] + Content(Value()) == old(Content(Value()))
      ensures Value() == TakeFirst(old(Value()), size).ring && total_len == |TakeFirst(old(Value()), size).out|
      ensures buf[total_len..] == old(buf[total_len..])
    {
      hide Content;
      TakeTakesPrefix(Value(), size);
      var len := SERIAL_BUF_SIZE - read_pos;
      if write_pos > read_pos {
        len := write_pos - read_pos;
      }
      if len > size {
        len := size;
      }
      CopyOut(buf, 0, read_pos, len);
      read_pos := read_pos + len;
      total_len := len;
      if read_pos >= SERIAL_BUF_SIZE {
        read_pos := 0;
      }
      if write_pos < read_pos && size > total_len {
        assert false;
      }
    }

    /** memcpy from the ring */
    method CopyOut(buf: array<char>, at: nat, start: nat, len: nat)
      requires Valid() && buf != serial_buf && at + len <= buf.Length && start + len <= SERIAL_BUF_SIZE
      modifies buf
      ensures buf[at..at + len] == serial_buf[start..start + len]
      ensures buf[..at] == old(buf[..at]) && buf[at + len..] == old(buf[at + len..])
    {
      for i := 0 to len
        invariant buf[at..at + i] == serial_buf[start..start + i]
        invariant buf[..at] == old(buf[..at]) && buf[at + i..] == old(buf[at + i..])
      {
        ghost var rest := buf[at + i..];
        buf[at + i] := serial_buf[start + i];
        assert buf[at + i + 1..] == rest[1..];
        assert buf[at..at + i + 1] == buf[at..at + i] + [buf[at + i]];
      }
    }
  }
}
