/** The identity matcher `match_on_add`: does a device handed to the ADD
    path (or to the startup scan) carry the configured identity? */
module Matcher {
  import opened UsbTypes
  import opened Nls

  /** `sizeof(buf)` in `match_on_add`, equal to `sizeof(serial)`. */
  const BufSize: nat := 128

  /** The bytes of `s` before its first NUL: what C sees as the string. */
  function CStr(s: seq<Byte>): (r: seq<Byte>)
    ensures r <= s && NoNul(r)
    ensures |r| < |s| ==> s[|r|] == 0
  {
    if s == [] || s[0] == 0 then [] else [s[0]] + CStr(s[1..])
  }

  /** `s` stored in a zero-filled buffer of `n` bytes. */
  function Pad(s: seq<Byte>, n: nat): (r: seq<Byte>)
    requires |s| <= n
    ensures |r| == n && r[..|s|] == s
    ensures forall i :: |s| <= i < n ==> r[i] == 0
  {
    s + seq(n - |s|, _ => 0)
  }

  /** The text `usb_string(udev, udev->descriptor.iSerialNumber, buf, size)`
      leaves in `buf`, or `None` when it returns a negative error. It keeps
      one byte of `size` for the NUL terminator and converts the
      descriptor into the `size - 1` bytes left, skipping any character
      that no longer fits. The text read back is the device's whole text
      exactly when that text is shorter than `size`. */
  function UsbString(d: Device, size: nat): (r: Option<seq<Byte>>)
    requires size >= 1
    ensures r.Some? <==> d.serialText.Some?
    ensures r.Some? ==> |r.value| < size && NoNul(r.value)
    ensures r.Some? ==> (r.value == Text(d.serialText.value) <==> |Text(d.serialText.value)| < size)
  {
    match d.serialText
    case None => None
    case Some(cs) =>
      Utf16sToUtf8sWhole(cs, size - 1);
      Some(Utf16sToUtf8s(cs, size - 1))
  }

  /** C `strncmp(a, b, n)` from index `i` on: compares unsigned bytes and
      stops at the first difference, at a common NUL, or after `n` bytes.
      It reports equality exactly when the strings held in `a[i..n]` and
      `b[i..n]` are equal, and otherwise the sign of the first difference. */
  function StrNCmpFrom(a: seq<Byte>, b: seq<Byte>, n: nat, i: nat): (r: int)
    requires n <= |a| && n <= |b| && i <= n
    ensures r == 0 <==> CStr(a[i..n]) == CStr(b[i..n])
    decreases n - i
  {
    if i == n then 0
    else if a[i] != b[i] then
      assert CStr(a[i..n]) != CStr(b[i..n]) by {
        if a[i] != 0 && b[i] != 0 {
          assert CStr(a[i..n])[0] == a[i] && CStr(b[i..n])[0] == b[i];
        }
      }
      a[i] - b[i]
    else if a[i] == 0 then 0
    else
      assert a[i..n][1..] == a[i + 1..n] && b[i..n][1..] == b[i + 1..n];
      StrNCmpFrom(a, b, n, i + 1)
  }

  /** `strncmp(a, b, n) == 0` exactly when the first `n` bytes of `a` and
      `b` hold equal C strings. */
  function StrNCmp(a: seq<Byte>, b: seq<Byte>, n: nat): (r: int)
    requires n <= |a| && n <= |b|
    ensures r == 0 <==> CStr(a[..n]) == CStr(b[..n])
  {
    assert a[0..n] == a[..n] && b[0..n] == b[..n];
    StrNCmpFrom(a, b, n, 0)
  }

  /** On two NUL-padded buffers holding NUL-free texts that agree on their
      first `i` bytes, `strncmp` from `i` reports equality exactly when the
      texts are equal. */
  lemma {:induction false} StrNCmpFromPadded(a: seq<Byte>, b: seq<Byte>, i: nat)
    requires |a| < BufSize && |b| < BufSize && NoNul(a) && NoNul(b)
    requires i <= |a| && i <= |b| && a[..i] == b[..i]
    ensures StrNCmpFrom(Pad(a, BufSize), Pad(b, BufSize), BufSize, i) == 0 <==> a == b
    decreases BufSize - i
  {
    var pa, pb := Pad(a, BufSize), Pad(b, BufSize);
    assert pa[..|a|] == a && pb[..|b|] == b;
    if i < |a| && i < |b| {
      assert pa[i] == a[i] && pb[i] == b[i];
      if a[i] == b[i] {
        assert a[..i + 1] == a[..i] + [a[i]];
        assert b[..i + 1] == b[..i] + [b[i]];
        StrNCmpFromPadded(a, b, i + 1);
      } else {
        assert a != b;
      }
    } else if i == |a| && i == |b| {
      assert pa[i] == 0 && pb[i] == 0;
      assert a == a[..i] && b == b[..i];
    } else if i == |a| {
      assert pa[i] == 0 && pb[i] == b[i] != 0;
      assert |a| != |b|;
    } else {
      assert pb[i] == 0 && pa[i] == a[i] != 0;
      assert |a| != |b|;
    }
  }

  /** `char serial[128]` as a buffer. */
  function ParamBuf(cfg: Config): (r: seq<Byte>)
    ensures |r| == BufSize
    ensures r[0] == 0 <==> cfg.serial == []
  {
    var r := Pad(cfg.serial, BufSize);
    assert cfg.serial != [] ==> r[0] == cfg.serial[0] != 0;
    r
  }

  /** Zero in `vendor` or `product` disables the filter. */
  predicate Enabled(cfg: Config) {
    cfg.vendor != 0 && cfg.product != 0
  }

  /** The device's VID and PID are the configured ones. */
  predicate IdsEqual(cfg: Config, d: Device) {
    d.idVendor == cfg.vendor && d.idProduct == cfg.product
  }

  /** A `size` argument for `usb_string` that fits `char buf[128]`. */
  type ReadSize = n: nat | 1 <= n <= 128 witness 128

  /** The size `match_on_add` passes: `sizeof(buf) - 1`. */
  const AsWrittenSize: ReadSize := 127

  /** The size that reads as much as `buf` holds: `sizeof(buf)`. */
  const CorrectedSize: ReadSize := 128

  /** `match_on_add`, with the `size` argument it passes to `usb_string`
      as a parameter: the source passes `AsWrittenSize`. */
  function MatchOnAdd(cfg: Config, h: Handle, readSize: ReadSize): (r: bool)
    ensures r ==> h.Ptr? && Enabled(cfg) && IdsEqual(cfg, h.dev)
    ensures cfg.serial == [] ==> (r <==> h.Ptr? && Enabled(cfg) && IdsEqual(cfg, h.dev))
    ensures r && cfg.serial != [] ==>
              h.dev.iSerialNumber != 0 && UsbString(h.dev, readSize).Some?
  {
    if h.Null? || cfg.vendor == 0 || cfg.product == 0 then false
    else if h.dev.idVendor != cfg.vendor then false
    else if h.dev.idProduct != cfg.product then false
    else if ParamBuf(cfg)[0] == 0 then true
    else if h.dev.iSerialNumber == 0 then false
    else
      match UsbString(h.dev, readSize)
      case None => false
      case Some(text) => StrNCmp(Pad(text, BufSize), ParamBuf(cfg), BufSize) == 0
  }

  /** With a serial configured, a device matches exactly when the filter is
      enabled, its VID and PID are the configured ones, it has a serial
      string descriptor, and the text read back is the configured serial. */
  lemma MatchOnAddSerial(cfg: Config, d: Device, readSize: ReadSize)
    requires cfg.serial != []
    ensures MatchOnAdd(cfg, Ptr(d), readSize) <==>
              Enabled(cfg) && IdsEqual(cfg, d) && d.iSerialNumber != 0 &&
              UsbString(d, readSize) == Some(cfg.serial)
  {
    var text := UsbString(d, readSize);
    if Enabled(cfg) && IdsEqual(cfg, d) && d.iSerialNumber != 0 && text.Some? {
      StrNCmpFromPadded(text.value, cfg.serial, 0);
    }
  }

  /** `match_on_add` reading the serial with `size == sizeof(buf)`, so up
      to 127 bytes of text: with a serial configured it matches exactly
      when the text read back is the configured serial. */
  function Matches(cfg: Config, h: Handle): (r: bool)
    ensures r ==> h.Ptr? && Enabled(cfg) && IdsEqual(cfg, h.dev)
    ensures h.Ptr? && cfg.serial == [] ==> (r <==> Enabled(cfg) && IdsEqual(cfg, h.dev))
    ensures h.Ptr? && cfg.serial != [] ==>
              (r <==> Enabled(cfg) && IdsEqual(cfg, h.dev) && h.dev.iSerialNumber != 0 &&
                      UsbString(h.dev, CorrectedSize) == Some(cfg.serial))
  {
    if h.Ptr? && cfg.serial != [] then MatchOnAddSerial(cfg, h.dev, CorrectedSize); MatchOnAdd(cfg, h, CorrectedSize)
    else MatchOnAdd(cfg, h, CorrectedSize)
  }

  /** `match_on_add` exactly as written, `size == sizeof(buf) - 1`: with a
      serial configured it matches exactly when the at most 126 bytes read
      back are the configured serial. */
  function MatchesAsWritten(cfg: Config, h: Handle): (r: bool)
    ensures r ==> h.Ptr? && Enabled(cfg) && IdsEqual(cfg, h.dev)
    ensures h.Ptr? && cfg.serial == [] ==> (r <==> Enabled(cfg) && IdsEqual(cfg, h.dev))
    ensures h.Ptr? && cfg.serial != [] ==>
              (r <==> Enabled(cfg) && IdsEqual(cfg, h.dev) && h.dev.iSerialNumber != 0 &&
                      UsbString(h.dev, AsWrittenSize) == Some(cfg.serial))
  {
    if h.Ptr? && cfg.serial != [] then MatchOnAddSerial(cfg, h.dev, AsWrittenSize); MatchOnAdd(cfg, h, AsWrittenSize)
    else MatchOnAdd(cfg, h, AsWrittenSize)
  }

  /** The zero sentinel is never a wildcard: a disabled filter, or a NULL
      handle, matches nothing, whatever the device reports. */
  lemma DisabledMatchesNothing(cfg: Config, h: Handle, readSize: ReadSize)
    requires !Enabled(cfg) || h.Null?
    ensures !MatchOnAdd(cfg, h, readSize)
  {
  }

  /** For a device whose serial converts to a text shorter than the read
      size, a configured serial matches by byte-for-byte, case-sensitive
      equality with that text. */
  lemma SerialMatchIsEquality(cfg: Config, d: Device, readSize: ReadSize)
    requires cfg.serial != []
    requires d.serialText.Some? && |Text(d.serialText.value)| < readSize
    ensures MatchOnAdd(cfg, Ptr(d), readSize) <==>
              Enabled(cfg) && IdsEqual(cfg, d) && d.iSerialNumber != 0 &&
              Text(d.serialText.value) == cfg.serial
  {
    MatchOnAddSerial(cfg, d, readSize);
  }

  /** As written and corrected agree on every device whose serial
      converts to at most 126 bytes. This covers every ASCII serial: a
      string descriptor holds at most 126 UTF-16 units. */
  lemma AsWrittenAgreesOnShortSerials(cfg: Config, h: Handle)
    requires h.Ptr? && h.dev.serialText.Some? ==> |Text(h.dev.serialText.value)| < AsWrittenSize
    ensures MatchesAsWritten(cfg, h) == Matches(cfg, h)
  {
    if h.Ptr? {
      assert UsbString(h.dev, AsWrittenSize) == UsbString(h.dev, CorrectedSize);
    }
  }

  /** `é` in UTF-8. */
  const EAcute: seq<Byte> := [0xC3, 0xA9]

  /** `k` copies of `A`, as characters. */
  function As(k: nat): (cs: seq<CodePoint>)
    ensures |cs| == k && NoNulChar(cs) && Text(cs) == cs
  {
    var cs := seq(k, _ => 0x41);
    TextOfAscii(cs);
    cs
  }

  /** `é` followed by 125 `A`: 127 UTF-8 bytes. */
  function LongSerial(): (s: seq<Byte>)
    ensures |s| == 127 && NoNul(s)
  {
    EAcute + As(125)
  }

  /** The characters of `LongSerial()`: 126 UTF-16 units. */
  function LongSerialChars(): (cs: seq<CodePoint>)
    ensures |cs| == 126 && Text(cs) == LongSerial()
  {
    var cs := [0xE9] + As(125);
    assert cs[1..] == As(125);
    cs
  }

  /** `k` copies of `é` in UTF-8: `2k` bytes. */
  function EAcutes(k: nat): (s: seq<Byte>)
    ensures |s| == 2 * k && NoNul(s)
  {
    seq(2 * k, i => if i % 2 == 0 then EAcute[0] else EAcute[1])
  }

  /** `k` copies of `é` convert to `EAcutes(k)`. */
  lemma {:induction false} TextOfEAcutes(k: nat)
    ensures Text(seq(k, _ => 0xE9)) == EAcutes(k)
  {
    if k > 0 {
      var cs := seq(k, _ => 0xE9);
      assert cs[0] == 0xE9 && cs[1..] == seq(k - 1, _ => 0xE9);
      TextOfEAcutes(k - 1);
      assert Utf8(0xE9) == EAcute;
      assert EAcute + EAcutes(k - 1) == EAcutes(k);
    }
  }

  /** `k` copies of `é` as characters: `k` UTF-16 units. */
  function EAcuteChars(k: nat): (cs: seq<CodePoint>)
    ensures |cs| == k && NoNulChar(cs) && Text(cs) == EAcutes(k)
  {
    TextOfEAcutes(k);
    seq(k, _ => 0xE9)
  }

  /** A configured serial of the full 127 bytes never matches as written:
      the device carrying exactly that serial is rejected. */
  lemma AsWrittenRejectsFullLengthSerial()
    ensures var cfg := Config(0x1234, 0x5678, LongSerial());
            var d := Device(1, 0x1234, 0x5678, 3, Some(LongSerialChars()));
            Matches(cfg, Ptr(d)) && !MatchesAsWritten(cfg, Ptr(d))
  {
    var cfg := Config(0x1234, 0x5678, LongSerial());
    var d := Device(1, 0x1234, 0x5678, 3, Some(LongSerialChars()));
    SerialMatchIsEquality(cfg, d, CorrectedSize);
    assert |UsbString(d, AsWrittenSize).value| < 127;
  }

  /** As written, a device whose serial is the configured 126-byte serial
      followed by one more character is accepted. */
  lemma AsWrittenAcceptsLongerSerial()
    ensures var cfg := Config(0x1234, 0x5678, EAcutes(63));
            var d := Device(1, 0x1234, 0x5678, 3, Some(EAcuteChars(63) + [0x41]));
            MatchesAsWritten(cfg, Ptr(d)) && !Matches(cfg, Ptr(d))
  {
    var cfg := Config(0x1234, 0x5678, EAcutes(63));
    var cs := EAcuteChars(63) + [0x41];
    var d := Device(1, 0x1234, 0x5678, 3, Some(cs));
    TextAppend(EAcuteChars(63), [0x41]);
    SerialMatchIsEquality(cfg, d, CorrectedSize);
    Utf16sToUtf8sAppend(EAcuteChars(63), [0x41], 126);
    assert UsbString(d, AsWrittenSize).value == EAcutes(63);
  }

  /** As written, a character that no longer fits is skipped and a later
      one is still read: the device `A`x124 `€` `B` is accepted for the
      configured serial `A`x124 `B`. */
  lemma AsWrittenSkipsWideCharacter()
    ensures var cfg := Config(0x1234, 0x5678, As(124) + [0x42]);
            var d := Device(1, 0x1234, 0x5678, 3, Some(As(124) + [0x20AC, 0x42]));
            MatchesAsWritten(cfg, Ptr(d)) && !Matches(cfg, Ptr(d))
  {
    var serial := As(124) + [0x42];
    assert NoNul(serial);
    var cfg := Config(0x1234, 0x5678, serial);
    var cs := As(124) + [0x20AC, 0x42];
    var d := Device(1, 0x1234, 0x5678, 3, Some(cs));
    assert |Utf8(0x20AC)| == 3;
    Utf16sToUtf8sAppend(As(124), [0x20AC, 0x42], 126);
    Utf16sToUtf8sCons(0x20AC, [0x42], 2);
    Utf16sToUtf8sCons(0x42, [], 2);
    assert UsbString(d, AsWrittenSize).value == serial;
    Utf16sToUtf8sAppend(As(124), [0x20AC, 0x42], 127);
    Utf16sToUtf8sCons(0x20AC, [0x42], 3);
    assert |UsbString(d, CorrectedSize).value| == 127;
  }

  /** The corrected size does not make the match exact for a device whose
      text exceeds the buffer: the device `é`x63 `€` `B` (130 bytes) reads
      back as `é`x63 `B` and is accepted for that configured serial. */
  lemma CorrectedSkipsWideCharacter()
    ensures var cfg := Config(0x1234, 0x5678, EAcutes(63) + [0x42]);
            var d := Device(1, 0x1234, 0x5678, 3, Some(EAcuteChars(63) + [0x20AC, 0x42]));
            Matches(cfg, Ptr(d)) && Text(d.serialText.value) != cfg.serial
  {
    var serial := EAcutes(63) + [0x42];
    assert NoNul(serial);
    var cfg := Config(0x1234, 0x5678, serial);
    var cs := EAcuteChars(63) + [0x20AC, 0x42];
    var d := Device(1, 0x1234, 0x5678, 3, Some(cs));
    assert |Utf8(0x20AC)| == 3;
    Utf16sToUtf8sAppend(EAcuteChars(63), [0x20AC, 0x42], 127);
    Utf16sToUtf8sCons(0x20AC, [0x42], 1);
    Utf16sToUtf8sCons(0x42, [], 1);
    assert UsbString(d, CorrectedSize).value == serial;
    TextAppend(EAcuteChars(63), [0x20AC, 0x42]);
    assert [0x20AC, 0x42] == [0x20AC] + [0x42];
    TextAppend([0x20AC], [0x42]);
    assert |Text(cs)| == 130;
  }
}
