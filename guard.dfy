/** The module's global state and entry points: one `Guard` object holds
    `tracked_udev`, `present` and the references held on devices; each
    method is one critical section under `tracked_lock`. */
module Monitor {
  import opened UsbTypes
  import opened Matcher
  import P = Presence
  import opened ProcFile

  class Guard {
    /** The `vendor`, `product` and `serial` module parameters. */
    const cfg: Config
    /** The `size` `match_on_add` passes to `usb_string`. */
    const readSize: ReadSize
    /** `tracked_udev`, None standing for NULL. */
    var tracked: Option<DeviceId>
    /** The `present` atomic, 1 read as true. */
    var present: bool
    /** References this module holds, per device (`usb_get_dev`/`usb_put_dev`). */
    ghost var refs: map<DeviceId, int>

    ghost function State(): P.State
      reads this
    {
      P.State(tracked, present, refs)
    }

    ghost predicate Valid()
      reads this
    {
      P.Inv(State())
    }

    /** The statics as the module is loaded: nothing tracked, flag 0. */
    constructor (cfg: Config, readSize: ReadSize)
      ensures Valid() && State() == P.Initial && this.cfg == cfg && this.readSize == readSize
    {
      this.cfg := cfg;
      this.readSize := readSize;
      tracked := None;
      present := false;
      refs := map[];
    }

    /** `track_device`. */
    method TrackDevice(d: Device)
      requires Valid()
      modifies this
      ensures Valid() && State() == P.Track(old(State()), d)
      ensures old(tracked).Some? ==> unchanged(this)
      ensures old(tracked).None? ==> tracked == Some(d.id) && present && refs == map[d.id := 1]
    {
      if tracked.None? {
        tracked := Some(d.id);
        refs := P.Retain(refs, d.id);
        present := true;
      }
    }

    /** `untrack_if_same`. */
    method UntrackIfSame(h: Handle)
      requires Valid()
      modifies this
      ensures Valid() && State() == P.Untrack(old(State()), h)
      ensures old(tracked) != HandleId(h) ==> unchanged(this)
      ensures old(tracked) == HandleId(h) ==> tracked.None? && !present && refs == map[]
    {
      if tracked == HandleId(h) {
        present := false;
        if tracked.Some? {
          refs := P.Release(refs, tracked.value);
        }
        tracked := None;
      }
    }

    /** `usb_guard_notifier`. */
    method Notifier(action: nat, h: Handle) returns (r: int)
      requires Valid()
      modifies this
      ensures Valid() && State() == P.Notify(cfg, readSize, old(State()), action, h)
      ensures r == P.NOTIFY_OK
    {
      if action == P.USB_DEVICE_ADD {
        if MatchOnAdd(cfg, h, readSize) {
          TrackDevice(h.dev);
        }
      } else if action == P.USB_DEVICE_REMOVE {
        UntrackIfSame(h);
      }
      r := P.NOTIFY_OK;
    }

    /** `find_existing_cb`: returns 0 so that the enumeration goes on. */
    method FindExistingCb(d: Device) returns (r: int)
      requires Valid()
      modifies this
      ensures Valid() && State() == P.ScanStep(cfg, readSize, old(State()), d)
      ensures r == 0
    {
      if MatchOnAdd(cfg, Ptr(d), readSize) {
        TrackDevice(d);
      }
      r := 0;
    }

    /** `usb_for_each_dev(NULL, find_existing_cb)` over the devices
        attached at load time, in enumeration order. */
    method ScanExisting(devs: seq<Device>)
      requires Valid()
      modifies this
      ensures Valid() && State() == P.Scan(cfg, readSize, old(State()), devs)
    {
      var i := 0;
      while i < |devs|
        invariant 0 <= i <= |devs|
        invariant Valid() && State() == P.Scan(cfg, readSize, old(State()), devs[..i])
      {
        var _ := FindExistingCb(devs[i]);
        assert devs[..i + 1][..i] == devs[..i];
        i := i + 1;
      }
      assert devs[..i] == devs;
    }

    /** The locked block of `usb_guard_exit`. */
    method Exit()
      requires Valid()
      modifies this
      ensures Valid() && State() == P.Shutdown(old(State()))
      ensures tracked.None? && !present && refs == map[]
    {
      if tracked.Some? {
        refs := P.Release(refs, tracked.value);
        tracked := None;
      }
      present := false;
    }

    /** `proc_read`: one read of `/proc/usb_guard` at offset `pos`;
        `newPos` is the value left in `*ppos`. */
    method ProcRead(count: SizeT, pos: LOffT) returns (ret: int, data: seq<Byte>, newPos: int)
      ensures ReadResult(ret, data, newPos) == SimpleReadFromBuffer(FlagText(present), count, pos)
      ensures pos < 0 ==> ret == -EINVAL && newPos == pos
      ensures pos >= 2 ==> ret == 0 && data == [] && newPos == pos
      ensures 0 <= pos < 2 ==>
                ret == Min(count, 2 - pos) && newPos == pos + ret &&
                data == FlagText(present)[pos..newPos]
    {
      var msg := FlagText(present);
      var r := SimpleReadFromBuffer(msg, count, pos);
      ret, data, newPos := r.ret, r.data, r.newPos;
    }
  }

  /** A client of the class, built as the source is: load with a matching
      key attached, unplug it, plug it back, unload. */
  method LoadUnplugReplugUnload(cfg: Config, key: Device, others: seq<Device>)
    requires MatchesAsWritten(cfg, Ptr(key))
  {
    var g := new Guard(cfg, AsWrittenSize);
    g.ScanExisting([key] + others);
    P.ScanTracksFirstMatch(cfg, AsWrittenSize, P.Initial, [key] + others);
    assert g.present && g.tracked == Some(key.id);
    var ret, data, pos := g.ProcRead(16, 0);
    assert data == [0x31, NewLine] && pos == 2;
    var r := g.Notifier(P.USB_DEVICE_REMOVE, Ptr(key));
    assert !g.present && g.refs == map[];
    r := g.Notifier(P.USB_DEVICE_ADD, Ptr(key));
    assert g.present;
    g.Exit();
    assert !g.present && g.refs == map[];
  }
}
