/** The read-ahead buffer of gbmhelp.c. */
module ReadAhead {
  import opened Bits

  const AHEAD_BUF := 0x4000

  class Ahead {
    const file: seq<Byte>
    var off: nat        // how far the file has been read
    var buf: seq<Byte>  // what the last read delivered
    var inx: nat
    var cnt: nat

    ghost predicate Valid()
      reads this
    {
      && cnt <= off <= |file| && |buf| <= AHEAD_BUF
      && (inx < cnt ==> cnt == |buf| && buf == file[off - cnt..off])
    }

    /** What is still to be read: the rest of the buffer and the rest of the file. */
    ghost function Rest(): seq<Byte>
      reads this
      requires Valid()
    {
      if inx < cnt then file[off - cnt + inx..] else file[off..]
    }

    /** gbm_create_ahead. */
    constructor (file: seq<Byte>)
      ensures Valid() && Rest() == file
    {
      this.file := file;
      off, buf, inx, cnt := 0, [], 0, 0;
    }

    /** gbm_read_ahead followed by the cast to a byte every caller makes: the -1 at the end of the
        file becomes 0xff. */
    method Read() returns (b: Byte)
      requires Valid()
      modifies this
      ensures Valid() && b == NextByte(old(Rest())) && Rest() == AfterByte(old(Rest()))
    {
      if inx >= cnt {
        cnt := if |file| - off < AHEAD_BUF then |file| - off else AHEAD_BUF;
        buf := file[off..off + cnt];
        off := off + cnt;
        if cnt <= 0 {
          return 0xff;
        }
        inx := 0;
      }
      b := buf[inx];
      inx := inx + 1;
    }
  }

  function NextByte(s: seq<Byte>): Byte { if s == [] then 0xff else s[0] }

  function AfterByte(s: seq<Byte>): seq<Byte> { if s == [] then [] else s[1..] }
}
