/** The query interface: `/proc/usb_guard` renders the presence flag as a
    one-line decimal number, served by `simple_read_from_buffer`. */
module ProcFile {
  import opened UsbTypes

  /** `EINVAL` (include/uapi/asm-generic/errno-base.h). */
  const EINVAL: int := 22

  /** `size_t` and `loff_t` on a 64-bit kernel. */
  type SizeT = x: int | 0 <= x < 0x1_0000_0000_0000_0000
  type LOffT = x: int | -0x8000_0000_0000_0000 <= x < 0x8000_0000_0000_0000

  const NewLine: Byte := 10

  /** The value of an ASCII decimal digit, -1 for any other byte. */
  function DigitValue(b: Byte): int {
    if 0x30 <= b <= 0x39 then b - 0x30 else -1
  }

  /** The text `scnprintf(msg, sizeof(msg), "%d\n", val)` writes for
      `val = atomic_read(&present) ? 1 : 0`. */
  function FlagText(present: bool): (msg: seq<Byte>)
    ensures |msg| == 2 && msg[1] == NewLine
    ensures DigitValue(msg[0]) == (if present then 1 else 0)
  {
    [if present then 0x31 else 0x30, NewLine]
  }

  /** The bytes a `read` returns as one ssize_t result, the bytes copied
      to the caller's buffer, and the new file position `*ppos`. */
  datatype ReadResult = ReadResult(ret: int, data: seq<Byte>, newPos: int)

  function Min(a: int, b: int): int { if a <= b then a else b }

  /** `simple_read_from_buffer(to, count, ppos, from, available)` with
      `from[..available] == from`: a negative position is -EINVAL; a
      position at or past the end, or a zero count, reads nothing;
      otherwise it copies `min(count, available - pos)` bytes from `pos`
      and advances `*ppos` past them. */
  function SimpleReadFromBuffer(from: seq<Byte>, count: SizeT, pos: LOffT): (r: ReadResult)
    ensures pos < 0 ==> r.ret == -EINVAL && r.data == [] && r.newPos == pos
    ensures pos >= 0 ==> 0 <= r.ret == |r.data| && r.newPos == pos + r.ret
    ensures pos >= 0 && pos < |from| ==> r.ret == Min(count, |from| - pos)
    ensures pos >= |from| ==> r.ret == 0 && r.newPos == pos
    ensures pos >= 0 && r.ret > 0 ==> r.data == from[pos..r.newPos]
  {
    if pos < 0 then ReadResult(-EINVAL, [], pos)
    else if pos >= |from| || count == 0 then ReadResult(0, [], pos)
    else
      var n := Min(count, |from| - pos);
      ReadResult(n, from[pos..pos + n], pos + n)
  }

  /** Two reads, the second at the position the first left behind, return
      together exactly what one read of both counts at once returns. */
  lemma ConsecutiveReads(from: seq<Byte>, c1: SizeT, c2: SizeT, pos: LOffT)
    requires pos >= 0 && c1 + c2 < 0x1_0000_0000_0000_0000 && |from| < 0x8000_0000_0000_0000
    ensures var r1 := SimpleReadFromBuffer(from, c1, pos);
            var r2 := SimpleReadFromBuffer(from, c2, r1.newPos as LOffT);
            var r := SimpleReadFromBuffer(from, (c1 + c2) as SizeT, pos);
            r1.data + r2.data == r.data && r2.newPos == r.newPos
  {
    var r1 := SimpleReadFromBuffer(from, c1, pos);
    if pos < |from| && c1 > 0 {
      var n1 := r1.ret;
      if pos + n1 < |from| && c2 > 0 {
        var n2 := Min(c2, |from| - (pos + n1));
        assert from[pos..pos + n1] + from[pos + n1..pos + n1 + n2] == from[pos..pos + n1 + n2];
      }
    }
  }

  /** Reading the whole file from the start yields the flag line. */
  lemma ReadFromStartYieldsFlag(present: bool, count: SizeT)
    requires count >= 2
    ensures SimpleReadFromBuffer(FlagText(present), count, 0).data == FlagText(present)
  {
  }
}
