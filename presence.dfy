/** The presence tracker and the event dispatch as a state machine over
    the module's globals: `tracked_udev`, `present`, and the device
    references the module holds through `usb_get_dev`/`usb_put_dev`.
    Each function is one critical section under `tracked_lock`. */
module Presence {
  import opened UsbTypes
  import opened Matcher

  /** `action` values of a USB notifier call (include/linux/usb.h). */
  const USB_DEVICE_ADD: nat := 1
  const USB_DEVICE_REMOVE: nat := 2

  /** The value every notifier callback returns (include/linux/notifier.h). */
  const NOTIFY_OK: int := 1

  /** `tracked_udev` (None for NULL), the `present` flag, and for each
      device the number of references the module holds on it (a device
      without an entry has none). */
  datatype State = State(tracked: Option<DeviceId>, present: bool, refs: map<DeviceId, int>)

  /** The module as loaded, before the startup scan. */
  const Initial := State(None, false, map[])

  function Held(refs: map<DeviceId, int>, d: DeviceId): int {
    if d in refs then refs[d] else 0
  }

  /** `usb_get_dev`: one more reference on `d`. */
  function Retain(refs: map<DeviceId, int>, d: DeviceId): (r: map<DeviceId, int>)
    ensures Held(r, d) == Held(refs, d) + 1
    ensures forall e :: e != d ==> Held(r, e) == Held(refs, e)
  {
    refs[d := Held(refs, d) + 1]
  }

  /** `usb_put_dev`: one reference on `d` fewer; the entry goes with the last one. */
  function Release(refs: map<DeviceId, int>, d: DeviceId): (r: map<DeviceId, int>)
    ensures Held(r, d) == Held(refs, d) - 1
    ensures forall e :: e != d ==> Held(r, e) == Held(refs, e)
  {
    if Held(refs, d) == 1 then refs - {d} else refs[d := Held(refs, d) - 1]
  }

  /** The references the module holds when `tracked` is the tracked device. */
  function HeldBy(tracked: Option<DeviceId>): map<DeviceId, int> {
    if tracked.None? then map[] else map[tracked.value := 1]
  }

  /** The tracker's invariant: the flag is set exactly when a device is
      tracked, and the only reference held is one on that device. */
  predicate Inv(s: State) {
    (s.present <==> s.tracked.Some?) && s.refs == HeldBy(s.tracked)
  }

  lemma InitialInv()
    ensures Inv(Initial) && !Initial.present
  {
  }

  /** Under the invariant at most one device is referenced, exactly once,
      and it is the tracked one. */
  lemma AtMostOneReference(s: State)
    requires Inv(s)
    ensures |s.refs| <= 1
    ensures forall d: DeviceId :: Held(s.refs, d) == (if s.tracked == Some(d) then 1 else 0)
  {
    if s.tracked.Some? {
      assert s.refs.Keys == {s.tracked.value};
    }
  }

  /** `track_device(udev)`: when nothing is tracked, retain `d`, track it
      and raise the flag; when a device is tracked already, do nothing. */
  function Track(s: State, d: Device): (t: State)
    ensures Inv(s) ==> Inv(t)
    ensures s.tracked.Some? ==> t == s
    ensures s.tracked.None? ==>
              t.tracked == Some(d.id) && t.present &&
              Held(t.refs, d.id) == Held(s.refs, d.id) + 1 &&
              forall e :: e != d.id ==> Held(t.refs, e) == Held(s.refs, e)
  {
    if s.tracked.None? then State(Some(d.id), true, Retain(s.refs, d.id)) else s
  }

  /** Tracking twice is tracking once, whatever the second device is. */
  lemma TrackIdempotent(s: State, d: Device, e: Device)
    ensures Track(Track(s, d), e) == Track(s, d)
  {
  }

  /** `untrack_if_same(udev)`: when `udev` is the tracked pointer, clear the
      flag, release the reference and forget the device. NULL compares
      equal to an empty slot; `usb_put_dev(NULL)` does nothing. */
  function Untrack(s: State, h: Handle): (t: State)
    ensures Inv(s) ==> Inv(t)
    ensures Inv(s) && (h.Null? || s.tracked != Some(h.dev.id)) ==> t == s
    ensures h.Ptr? && s.tracked == Some(h.dev.id) ==>
              t.tracked.None? && !t.present &&
              Held(t.refs, h.dev.id) == Held(s.refs, h.dev.id) - 1 &&
              forall e :: e != h.dev.id ==> Held(t.refs, e) == Held(s.refs, e)
  {
    if s.tracked == HandleId(h) then
      State(None, false, if s.tracked.Some? then Release(s.refs, s.tracked.value) else s.refs)
    else s
  }

  /** Tracking a device that is not tracked yet and then removing it gives
      back the state, reference counts included: nothing leaks. */
  lemma TrackThenUntrack(s: State, d: Device)
    requires Inv(s) && s.tracked != Some(d.id)
    ensures Untrack(Track(s, d), Ptr(d)) == s
  {
    if s.tracked.None? {
      assert Retain(map[], d.id) == map[d.id := 1];
      assert Release(map[d.id := 1], d.id) == map[];
    }
  }

  /** After `track(d)` and `untrack(d)` from any valid state, nothing is
      tracked, the flag is clear and no reference is held. */
  lemma TrackUntrackClears(s: State, d: Device)
    requires Inv(s) && (s.tracked.None? || s.tracked == Some(d.id))
    ensures var t := Untrack(Track(s, d), Ptr(d));
            t.tracked.None? && !t.present && t.refs == map[]
  {
  }

  /** The teardown in `usb_guard_exit`: release any tracked device, forget
      it, and clear the flag unconditionally. */
  function Shutdown(s: State): (t: State)
    ensures t.tracked.None? && !t.present
    ensures s.tracked.Some? ==>
              Held(t.refs, s.tracked.value) == Held(s.refs, s.tracked.value) - 1 &&
              forall e :: e != s.tracked.value ==> Held(t.refs, e) == Held(s.refs, e)
    ensures s.tracked.None? ==> t.refs == s.refs
    ensures Inv(s) ==> Inv(t) && t.refs == map[]
  {
    State(None, false, if s.tracked.Some? then Release(s.refs, s.tracked.value) else s.refs)
  }

  /** `usb_guard_notifier`, for the matcher `MatchOnAdd(cfg, _, rs)` (the
      source is `rs == AsWrittenSize`): ADD tracks a matching device, REMOVE
      untracks without consulting the matcher, every other action is ignored. */
  function Notify(cfg: Config, rs: ReadSize, s: State, action: nat, h: Handle): (t: State)
    ensures Inv(s) ==> Inv(t)
    ensures action != USB_DEVICE_ADD && action != USB_DEVICE_REMOVE ==> t == s
    ensures action == USB_DEVICE_ADD && !MatchOnAdd(cfg, h, rs) ==> t == s
    ensures action == USB_DEVICE_ADD && MatchOnAdd(cfg, h, rs) ==> t == Track(s, h.dev)
    ensures action == USB_DEVICE_REMOVE ==> t == Untrack(s, h)
  {
    if action == USB_DEVICE_ADD then
      if MatchOnAdd(cfg, h, rs) then Track(s, h.dev) else s
    else if action == USB_DEVICE_REMOVE then
      Untrack(s, h)
    else
      s
  }

  /** REMOVE does not look at the matcher: it behaves the same under every
      configuration and every read size. */
  lemma RemoveIgnoresMatcher(cfg1: Config, rs1: ReadSize, cfg2: Config, rs2: ReadSize, s: State, h: Handle)
    ensures Notify(cfg1, rs1, s, USB_DEVICE_REMOVE, h) == Notify(cfg2, rs2, s, USB_DEVICE_REMOVE, h)
  {
  }

  /** No event about a device other than the tracked one changes a valid
      state unless it is the ADD of a matching device into an empty slot. */
  lemma UnrelatedEventsChangeNothing(cfg: Config, rs: ReadSize, s: State, action: nat, h: Handle)
    requires Inv(s)
    requires h.Null? || s.tracked != Some(h.dev.id)
    requires !(action == USB_DEVICE_ADD && MatchOnAdd(cfg, h, rs) && s.tracked.None?)
    ensures Notify(cfg, rs, s, action, h) == s
  {
  }

  /** While a device is tracked, no ADD changes anything. */
  lemma AddWhileTrackedChangesNothing(cfg: Config, rs: ReadSize, s: State, h: Handle)
    requires s.tracked.Some?
    ensures Notify(cfg, rs, s, USB_DEVICE_ADD, h) == s
  {
  }

  /** `find_existing_cb(udev)`: match, then track. */
  function ScanStep(cfg: Config, rs: ReadSize, s: State, d: Device): (t: State)
    ensures Inv(s) ==> Inv(t)
    ensures t == Notify(cfg, rs, s, USB_DEVICE_ADD, Ptr(d))
  {
    if MatchOnAdd(cfg, Ptr(d), rs) then Track(s, d) else s
  }

  /** `usb_for_each_dev(NULL, find_existing_cb)` over the attached devices
      `devs`, in enumeration order. */
  function Scan(cfg: Config, rs: ReadSize, s: State, devs: seq<Device>): (t: State)
    ensures Inv(s) ==> Inv(t)
    decreases |devs|
  {
    if devs == [] then s
    else ScanStep(cfg, rs, Scan(cfg, rs, s, devs[..|devs| - 1]), devs[|devs| - 1])
  }

  /** The position of the first `true` of `bs`, if any. */
  function FirstTrue(bs: seq<bool>): (r: Option<nat>)
    ensures r.Some? ==> r.value < |bs| && bs[r.value]
    ensures r.Some? ==> forall j :: 0 <= j < r.value ==> !bs[j]
    ensures r.None? ==> forall j :: 0 <= j < |bs| ==> !bs[j]
  {
    if bs == [] then None
    else if bs[0] then Some(0)
    else
      match FirstTrue(bs[1..])
      case None => None
      case Some(k) => Some(k + 1)
  }

  /** Appending a verdict changes the first `true` only when there was
      none before. */
  lemma {:induction false} FirstTrueSnoc(bs: seq<bool>)
    requires bs != []
    ensures var n := |bs| - 1;
            FirstTrue(bs) ==
              match FirstTrue(bs[..n])
              case Some(i) => Some(i)
              case None => if bs[n] then Some(n) else None
    decreases |bs|
  {
    var n := |bs| - 1;
    if n > 0 {
      var init := bs[..n];
      assert init[0] == bs[0];
      if !bs[0] {
        var tail := bs[1..];
        assert tail[..n - 1] == init[1..];
        assert tail[n - 1] == bs[n];
        FirstTrueSnoc(tail);
      }
    }
  }

  /** The verdict of the matcher on each device of `devs`. */
  function Verdicts(cfg: Config, rs: ReadSize, devs: seq<Device>): (bs: seq<bool>)
    ensures |bs| == |devs|
  {
    seq(|devs|, i requires 0 <= i < |devs| => MatchOnAdd(cfg, Ptr(devs[i]), rs))
  }

  /** The position of the first device of `devs` that matches, if any. */
  function FirstMatch(cfg: Config, rs: ReadSize, devs: seq<Device>): (r: Option<nat>)
    ensures r.Some? ==> r.value < |devs| && MatchOnAdd(cfg, Ptr(devs[r.value]), rs)
    ensures r.Some? ==> forall j :: 0 <= j < r.value ==> !MatchOnAdd(cfg, Ptr(devs[j]), rs)
    ensures r.None? ==> forall j :: 0 <= j < |devs| ==> !MatchOnAdd(cfg, Ptr(devs[j]), rs)
  {
    var bs := Verdicts(cfg, rs, devs);
    assert forall j :: 0 <= j < |devs| ==> bs[j] == MatchOnAdd(cfg, Ptr(devs[j]), rs);
    FirstTrue(bs)
  }

  /** Appending a device to the enumeration changes the first match only
      when there was none before. */
  lemma FirstMatchSnoc(cfg: Config, rs: ReadSize, devs: seq<Device>)
    requires devs != []
    ensures var n := |devs| - 1;
            FirstMatch(cfg, rs, devs) ==
              match FirstMatch(cfg, rs, devs[..n])
              case Some(i) => Some(i)
              case None => if MatchOnAdd(cfg, Ptr(devs[n]), rs) then Some(n) else None
  {
    var n := |devs| - 1;
    var bs := Verdicts(cfg, rs, devs);
    assert bs[..n] == Verdicts(cfg, rs, devs[..n]);
    assert bs[n] == MatchOnAdd(cfg, Ptr(devs[n]), rs);
    FirstTrueSnoc(bs);
  }

  /** A matching device with no match before it is the first match. */
  lemma FirstMatchAt(cfg: Config, rs: ReadSize, devs: seq<Device>, k: nat)
    requires k < |devs| && MatchOnAdd(cfg, Ptr(devs[k]), rs)
    requires forall j :: 0 <= j < k ==> !MatchOnAdd(cfg, Ptr(devs[j]), rs)
    ensures FirstMatch(cfg, rs, devs) == Some(k)
  {
    var f := FirstMatch(cfg, rs, devs);
    assert f.Some? && f.value <= k;
  }

  /** The startup scan tracks the first matching device into an empty slot
      and ignores every later match; with a device tracked already, it
      changes nothing. */
  lemma {:induction false} ScanTracksFirstMatch(cfg: Config, rs: ReadSize, s: State, devs: seq<Device>)
    requires Inv(s)
    ensures s.tracked.Some? ==> Scan(cfg, rs, s, devs) == s
    ensures s.tracked.None? ==>
              Scan(cfg, rs, s, devs) ==
                match FirstMatch(cfg, rs, devs)
                case None => s
                case Some(i) => Track(s, devs[i])
    decreases |devs|
  {
    if devs != [] {
      var n := |devs| - 1;
      ScanTracksFirstMatch(cfg, rs, s, devs[..n]);
      FirstMatchSnoc(cfg, rs, devs);
      if s.tracked.None? && FirstMatch(cfg, rs, devs[..n]).Some? {
        assert devs[..n][FirstMatch(cfg, rs, devs[..n]).value] == devs[FirstMatch(cfg, rs, devs[..n]).value];
      }
    }
  }

  /** A matching device already attached when the module loads raises the
      flag without any live event. */
  lemma ScanFindsAttachedKey(cfg: Config, rs: ReadSize, devs: seq<Device>, i: nat)
    requires i < |devs| && MatchOnAdd(cfg, Ptr(devs[i]), rs)
    ensures Scan(cfg, rs, Initial, devs).present
    ensures Scan(cfg, rs, Initial, devs).tracked.Some?
  {
    ScanTracksFirstMatch(cfg, rs, Initial, devs);
  }
}
