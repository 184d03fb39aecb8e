/** End-to-end behaviours of the module, stated over the state machine
    with the matcher as the source builds it (`AsWrittenSize`). */
module Scenarios {
  import opened UsbTypes
  import opened Matcher
  import opened Presence
  import opened ProcFile
  import opened Nls

  const SN001: seq<Byte> := [0x53, 0x4E, 0x30, 0x30, 0x31]
  const SN002: seq<Byte> := [0x53, 0x4E, 0x30, 0x30, 0x32]

  /** The two serials as a device's descriptor holds them. */
  const SN001Chars: seq<CodePoint> := [0x53, 0x4E, 0x30, 0x30, 0x31]
  const SN002Chars: seq<CodePoint> := [0x53, 0x4E, 0x30, 0x30, 0x32]

  /** VID/PID only: the key attaching raises the flag, detaching clears it,
      and no reference is left behind. */
  lemma PlugAndUnplug(d: Device)
    requires d.idVendor == 0x1234 && d.idProduct == 0x5678
    ensures var cfg := Config(0x1234, 0x5678, []);
            var s1 := Notify(cfg, AsWrittenSize, Initial, USB_DEVICE_ADD, Ptr(d));
            var s2 := Notify(cfg, AsWrittenSize, s1, USB_DEVICE_REMOVE, Ptr(d));
            s1.present && !s2.present && s2 == Initial
  {
  }

  /** A device with the right VID/PID but the wrong serial is rejected. */
  lemma WrongSerialRejected(d: Device)
    requires d.idVendor == 0x1234 && d.idProduct == 0x5678
    requires d.iSerialNumber != 0 && d.serialText == Some(SN002Chars)
    ensures Notify(Config(0x1234, 0x5678, SN001), AsWrittenSize, Initial, USB_DEVICE_ADD, Ptr(d)) == Initial
  {
    TextOfAscii(SN002Chars);
    SerialMatchIsEquality(Config(0x1234, 0x5678, SN001), d, AsWrittenSize);
    assert SN002[4] != SN001[4];
  }

  /** Of two devices sharing VID/PID, the one with the wrong serial
      attaching first is rejected and the right one attaching next is
      tracked. */
  lemma RightSerialAfterWrongOne(wrong: Device, right: Device)
    requires wrong.idVendor == right.idVendor == 0x1234
    requires wrong.idProduct == right.idProduct == 0x5678
    requires wrong.iSerialNumber != 0 && wrong.serialText == Some(SN002Chars)
    requires right.iSerialNumber != 0 && right.serialText == Some(SN001Chars)
    ensures var cfg := Config(0x1234, 0x5678, SN001);
            var s1 := Notify(cfg, AsWrittenSize, Initial, USB_DEVICE_ADD, Ptr(wrong));
            var s2 := Notify(cfg, AsWrittenSize, s1, USB_DEVICE_ADD, Ptr(right));
            !s1.present && s2.present && s2.tracked == Some(right.id)
  {
    var cfg := Config(0x1234, 0x5678, SN001);
    TextOfAscii(SN001Chars);
    TextOfAscii(SN002Chars);
    SerialMatchIsEquality(cfg, wrong, AsWrittenSize);
    SerialMatchIsEquality(cfg, right, AsWrittenSize);
    assert SN002[4] != SN001[4];
  }

  /** A key attached before loading is found by the startup scan, even
      when a second copy of it follows in the enumeration. */
  lemma KeyPresentAtLoad(cfg: Config, before: seq<Device>, key: Device, after: seq<Device>)
    requires MatchesAsWritten(cfg, Ptr(key))
    requires forall j :: 0 <= j < |before| ==> !MatchesAsWritten(cfg, Ptr(before[j]))
    ensures Scan(cfg, AsWrittenSize, Initial, before + [key] + after) == Track(Initial, key)
  {
    var devs, k := before + [key] + after, |before|;
    assert devs[k] == key;
    forall j | 0 <= j < k
      ensures !MatchOnAdd(cfg, Ptr(devs[j]), AsWrittenSize)
    {
      assert devs[j] == before[j];
      assert !MatchesAsWritten(cfg, Ptr(before[j]));
    }
    FirstMatchAt(cfg, AsWrittenSize, devs, k);
    ScanTracksFirstMatch(cfg, AsWrittenSize, Initial, devs);
  }

  /** The key whose serial converts to `LongSerial()` (127 bytes), configured
      with exactly that serial: plugging it in leaves the flag at 0 in the
      source, while the corrected read size tracks it. */
  lemma LongSerialKeyNeverPresent(d: Device)
    requires d.idVendor == 0x1234 && d.idProduct == 0x5678
    requires d.iSerialNumber != 0 && d.serialText == Some(LongSerialChars())
    ensures var cfg := Config(0x1234, 0x5678, LongSerial());
            Notify(cfg, AsWrittenSize, Initial, USB_DEVICE_ADD, Ptr(d)) == Initial &&
            Notify(cfg, CorrectedSize, Initial, USB_DEVICE_ADD, Ptr(d)).present
  {
    var cfg := Config(0x1234, 0x5678, LongSerial());
    SerialMatchIsEquality(cfg, d, CorrectedSize);
    MatchOnAddSerial(cfg, d, AsWrittenSize);
    assert |UsbString(d, AsWrittenSize).value| < 127;
  }

  /** A read at or past the end of the flag line returns nothing and no
      error, and leaves the position where it was. */
  lemma ReadPastEndIsEmpty(present: bool, count: SizeT, pos: LOffT)
    requires pos >= 2
    ensures var r := SimpleReadFromBuffer(FlagText(present), count, pos);
            r.ret == 0 && r.data == [] && r.newPos == pos
  {
  }
}
