/** Reading from the console firmware of an Alpha (cons.c of aboot): the device gives whole sectors, the
    caller asks for any bytes. */
module ConsRead {

  const SECT_SIZE: nat := 512

  type Byte = bv8

  /** The bytes [offset, offset + count) lie in the sectors from First to before Last. */
  function FirstSector(offset: nat): nat {
    offset / SECT_SIZE
  }

  function EndSector(offset: nat, count: nat): nat {
    if count == 0 then FirstSector(offset) else (offset + count - 1) / SECT_SIZE + 1
  }

  predicate Aligned(offset: nat, count: nat) {
    count % SECT_SIZE == 0 && offset % SECT_SIZE == 0
  }

  class Console {
    /** The bytes of the device. */
    const disk: seq<Byte>
    /** What the firmware returns when asked for so many bytes from a sector on. */
    const response: (nat, nat) -> int
    /** The static buffer of cons_read. */
    const readbuf: array<Byte>

    ghost predicate Valid()
    {
      && readbuf.Length == SECT_SIZE
      && forall lbn: nat, count: nat :: response(lbn, count) == count ==> SECT_SIZE * lbn + count <= |disk|
    }

    predicate SectorReads(lbn: nat) {
      response(lbn, SECT_SIZE) == SECT_SIZE
    }

    /** All sectors that hold some of the bytes can be read. */
    ghost predicate AllRead(offset: nat, count: nat) {
      forall lbn: nat :: FirstSector(offset) <= lbn < EndSector(offset, count) ==> SectorReads(lbn)
    }

    constructor (disk: seq<Byte>, response: (nat, nat) -> int)
      requires forall lbn: nat, count: nat :: response(lbn, count) == count ==> SECT_SIZE * lbn + count <= |disk|
      ensures Valid() && this.disk == disk && this.response == response && fresh(readbuf)
    {
      this.disk := disk;
      this.response := response;
      readbuf := new Byte[SECT_SIZE];
    }

    /** dispatch(CCB_READ, dev, count, buf + at, lbn). When the call fails, the firmware may have put
        anything into the part of the buffer it was given. */
    method Dispatch(count: nat, buf: array<Byte>, at: nat, lbn: nat) returns (retval: int)
      requires Valid() && at + count <= buf.Length
      modifies buf
      ensures retval == response(lbn, count)
      ensures buf[..at] == old(buf[..at]) && buf[at + count..] == old(buf[at + count..])
      ensures retval == count ==> SECT_SIZE * lbn + count <= |disk|
      ensures retval == count ==> buf[at..at + count] == disk[SECT_SIZE * lbn..SECT_SIZE * lbn + count]
    {
      retval := response(lbn, count);
      if retval == count {
        forall i | 0 <= i < count {
          buf[at + i] := disk[SECT_SIZE * lbn + i];
        }
      } else {
        var junk: seq<Byte> := *;
        forall i | 0 <= i < count && i < |junk| {
          buf[at + i] := junk[i];
        }
      }
    }

    /** memcpy(buf + at, readbuf + from, count) */
    method CopyOut(buf: array<Byte>, at: nat, from: nat, count: nat)
      requires readbuf != buf && at + count <= buf.Length && from + count <= readbuf.Length
      modifies buf
      ensures buf[..at] == old(buf[..at]) && buf[at + count..] == old(buf[at + count..])
      ensures buf[at..at + count] == readbuf[from..from + count]
    {
      forall i | 0 <= i < count {
        buf[at + i] := readbuf[from + i];
      }
    }

    /** cons_read */
    method Read(buf: array<Byte>, count: nat, offset: nat) returns (r: int)
      requires Valid() && buf != readbuf && count <= buf.Length
      modifies buf, readbuf
      ensures buf[count..] == old(buf[count..])
      ensures r == count ==> count == 0 || offset + count <= |disk|
      ensures r == count && count > 0 ==> buf[..count] == disk[offset..offset + count]
      ensures Aligned(offset, count) ==> r == response(FirstSector(offset), count)
      ensures !Aligned(offset, count) ==> r == if AllRead(offset, count) then count else -1
    {
      if count % SECT_SIZE == 0 && offset % SECT_SIZE == 0 {
        r := Dispatch(count, buf, 0, offset / SECT_SIZE);
        return;
      }
      r := ReadSectors(buf, count, offset);
    }

    /** The loop of cons_read over the sectors. */
    method ReadSectors(buf: array<Byte>, count: nat, offset: nat) returns (iocount: int)
      requires Valid() && buf != readbuf && count <= buf.Length
      modifies buf, readbuf
      ensures buf[count..] == old(buf[count..])
      ensures iocount == if AllRead(offset, count) then count else -1
      ensures iocount == count && count > 0 ==>
        offset + count <= |disk| && buf[..count] == disk[offset..offset + count]
    {
      var bytesleft: nat := count;
      var done: nat := 0;
      var blockoffset: nat := offset % SECT_SIZE;
      var lbn: nat := offset / SECT_SIZE;
      while bytesleft > 0
        invariant done + bytesleft == count
        invariant bytesleft > 0 ==> SECT_SIZE * lbn + blockoffset == offset + done && blockoffset < SECT_SIZE
        invariant bytesleft == 0 ==> lbn >= EndSector(offset, count)
        invariant forall l: nat :: FirstSector(offset) <= l < lbn ==> SectorReads(l)
        invariant buf[count..] == old(buf[count..])
        invariant done > 0 ==> offset + done <= |disk| && buf[..done] == disk[offset..offset + done]
        decreases bytesleft
      {
        var iosize: nat, ok := ReadPart(buf, done, bytesleft, blockoffset, lbn, offset);
        if !ok {
          assert FirstSector(offset) <= lbn < EndSector(offset, count);
          return -1;
        }
        done := done + iosize;
        bytesleft := bytesleft - iosize;
        blockoffset := 0;
        lbn := lbn + 1;
      }
      return done;
    }

    /** One round of the loop: a whole sector straight into place, or a part of one by way of the
        static buffer. */
    method ReadPart(buf: array<Byte>, done: nat, bytesleft: nat, blockoffset: nat, lbn: nat, ghost offset: nat)
      returns (iosize: nat, ok: bool)
      requires Valid() && buf != readbuf && done + bytesleft <= buf.Length && 0 < bytesleft
      requires blockoffset < SECT_SIZE && SECT_SIZE * lbn + blockoffset == offset + done
      requires done > 0 ==> offset + done <= |disk| && buf[..done] == disk[offset..offset + done]
      modifies buf, readbuf
      ensures ok == SectorReads(lbn)
      ensures buf[done + bytesleft..] == old(buf[done + bytesleft..])
      ensures ok ==> iosize == if blockoffset + bytesleft >= SECT_SIZE then SECT_SIZE - blockoffset else bytesleft
      ensures ok ==> offset + done + iosize <= |disk|
      ensures ok ==> buf[..done + iosize] == disk[offset..offset + done + iosize]
    {
      var retval: int;
      if blockoffset == 0 && bytesleft >= SECT_SIZE {
        iosize := SECT_SIZE;
        retval := Dispatch(iosize, buf, done, lbn);
        if retval != iosize {
          return iosize, false;
        }
      } else {
        iosize := bytesleft;
        if blockoffset + iosize >= SECT_SIZE {
          iosize := SECT_SIZE - blockoffset;
        }
        retval := ReadPiece(buf, done, blockoffset, iosize, lbn);
        if retval != SECT_SIZE {
          return 0, false;
        }
      }
      ok := true;
      JoinParts(buf, disk, offset, done, iosize);
    }

    /** A part of a sector, by way of the static buffer. */
    method ReadPiece(buf: array<Byte>, done: nat, blockoffset: nat, iosize: nat, lbn: nat) returns (retval: int)
      requires Valid() && buf != readbuf && done + iosize <= buf.Length && blockoffset + iosize <= SECT_SIZE
      modifies buf, readbuf
      ensures retval == response(lbn, SECT_SIZE)
      ensures buf[..done] == old(buf[..done]) && buf[done + iosize..] == old(buf[done + iosize..])
      ensures retval == SECT_SIZE ==> SECT_SIZE * lbn + SECT_SIZE <= |disk|
      ensures retval == SECT_SIZE ==>
        buf[done..done + iosize] == disk[SECT_SIZE * lbn + blockoffset..SECT_SIZE * lbn + blockoffset + iosize]
    {
      retval := Dispatch(SECT_SIZE, readbuf, 0, lbn);
      if retval != SECT_SIZE {
        return;
      }
      ghost var from := SECT_SIZE * lbn;
      assert readbuf[0..SECT_SIZE] == disk[from..from + SECT_SIZE];
      assert readbuf[blockoffset..blockoffset + iosize] == readbuf[0..SECT_SIZE][blockoffset..blockoffset + iosize];
      assert disk[from..from + SECT_SIZE][blockoffset..blockoffset + iosize]
        == disk[from + blockoffset..from + blockoffset + iosize];
      CopyOut(buf, done, blockoffset, iosize);
    }
  }

  lemma JoinParts(buf: array<Byte>, disk: seq<Byte>, offset: nat, done: nat, more: nat)
    requires done + more <= buf.Length && offset + done + more <= |disk|
    requires buf[..done] == disk[offset..offset + done]
    requires buf[done..done + more] == disk[offset + done..offset + done + more]
    ensures buf[..done + more] == disk[offset..offset + done + more]
  {
    assert buf[..done + more] == buf[..done] + buf[done..done + more];
  }
}
