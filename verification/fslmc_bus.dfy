/** The list logic of the FSLMC bus: scanning the VFIO group's device
    directory into the device list, emptying that list, matching drivers
    to devices, the probe dispatch loop, and driver registration. The
    lists are sequences in list order; a driver is known by an id that
    stands for its address. */
module FslmcBus {
  import opened FslmcName

  /** An rte_dpaa2_device: its name, object type and object id. */
  datatype Device = Device(name: CString, devType: DevType, objectId: nat)

  /** A directory entry: its name and whether d_type is DT_LNK. */
  datatype DirEntry = DirEntry(name: CString, isLink: bool)

  /** An rte_dpaa2_driver: its identity, the object type it serves,
      whether its probe hook is set, and whether its bus back-reference
      is set. */
  datatype Driver = Driver(id: nat, drvType: DevType, hasProbe: bool, onBus: bool)

  /** One driver probe call: positions in the device and driver lists. */
  datatype Call = Call(device: nat, driver: nat)

  // ---------------------------------------------------------------------
  // scan_one_fslmc_device

  /** scan_one_fslmc_device(name) on the device list: the return value and
      the list after. NULL gives -1, a "dprc" container name is ignored,
      a name lacking either token gives -1, and otherwise one device is
      added at the tail. */
  function ScanOne(name: Option<CString>, devs: seq<Device>): (r: (int, seq<Device>))
    ensures r.0 == 0 || r.0 == -1
    ensures name.None? ==> r.0 == -1
    ensures r.0 == -1 ==> r.1 == devs
    ensures r.1 == devs || (|r.1| == |devs| + 1 && r.1[..|devs|] == devs && r.1[|devs|].name == name.value)
    ensures r.1 != devs ==> r.1[|devs|].objectId < 0x1_0000
  {
    if name.None? then (-1, devs)
    else if StrnEq("dprc", name.value, 4) then (0, devs)
    else match ParseName(name.value)
      case None => (-1, devs)
      case Some(p) => (0, devs + [Device(name.value, p.0, p.1)])
  }

  /** A name that starts with "dprc" is the container itself: 0, and the
      list is unchanged. */
  lemma ScanOneContainer(name: CString, devs: seq<Device>)
    requires IsPrefix("dprc", name)
    ensures ScanOne(Some(name), devs) == (0, devs)
  {
    StrnEqPrefix("dprc", name);
  }

  /** A name "<type>.<id>" adds one device at the tail with the type of its
      first token and the id its second token spells, and returns 0. */
  lemma ScanOneAdds(tok: CString, n: nat, devs: seq<Device>)
    requires |tok| > 0 && forall i :: 0 <= i < |tok| ==> tok[i] != '.'
    requires !IsPrefix("dprc", tok) && n < 0x1_0000
    ensures var name: CString := tok + ['.'] + Decimal(n);
            ScanOne(Some(name), devs) == (0, devs + [Device(name, TypeOf(tok), n)])
  {
    var name: CString := tok + ['.'] + Decimal(n);
    DprcOfToken(tok, name);
    ParseNameOf(tok, n);
  }

  /** A name with no '.' has no second token: -1, nothing added. */
  lemma ScanOneNoId(tok: CString, devs: seq<Device>)
    requires |tok| > 0 && forall i :: 0 <= i < |tok| ==> tok[i] != '.'
    requires !IsPrefix("dprc", tok)
    ensures ScanOne(Some(tok), devs) == (-1, devs)
  {
    StrnEqPrefix("dprc", tok);
    StrtokSplit(tok, Empty);
  }

  /** A name of dots alone has no first token: -1, nothing added. */
  lemma ScanOneNoToken(name: CString, devs: seq<Device>)
    requires forall i :: 0 <= i < |name| ==> name[i] == '.'
    ensures ScanOne(Some(name), devs) == (-1, devs)
  {
    if |name| >= 4 {
      assert name[0] != "dprc"[0];
    }
  }

  /** A second token that does not start a number leaves the object id at
      the zero calloc gave it. */
  lemma ScanOneNoNumber(tok: CString, rest: CString, devs: seq<Device>)
    requires |tok| > 0 && forall i :: 0 <= i < |tok| ==> tok[i] != '.'
    requires |rest| > 0 && forall i :: 0 <= i < |rest| ==> rest[i] != '.'
    requires !IsPrefix("dprc", tok)
    requires !IsDigit(rest[0]) && !IsSpace(rest[0]) && rest[0] != '-' && rest[0] != '+'
    ensures var name: CString := tok + ['.'] + rest;
            ScanOne(Some(name), devs) == (0, devs + [Device(name, TypeOf(tok), 0)])
  {
    var name: CString := tok + ['.'] + rest;
    DprcOfToken(tok, name);
    StrtokSplit(tok, rest);
    StrtokSplit(rest, Empty);
    assert Lex(rest).1 == [];
  }

  /** Whether a name starts with "dprc" is decided by its first token when
      that token is followed by '.'. */
  lemma DprcOfToken(tok: CString, name: CString)
    requires |tok| > 0 && forall i :: 0 <= i < |tok| ==> tok[i] != '.'
    requires IsPrefix(tok + ['.'], name)
    ensures StrnEq("dprc", name, 4) <==> IsPrefix("dprc", tok)
  {
    StrnEqPrefix("dprc", name);
    if IsPrefix("dprc", name) {
      assert name[|tok|] == '.';
      assert |tok| >= 4;
      assert tok[..4] == name[..4];
    }
    if IsPrefix("dprc", tok) {
      assert name[..4] == tok[..4];
    }
  }

  // ---------------------------------------------------------------------
  // rte_fslmc_scan and cleanup_fslmc_device_list

  /** The entries the scan passes over: hidden names and non-links. */
  predicate Skipped(e: DirEntry) {
    CharAt(e.name, 0) == '.' || !e.isLink
  }

  /** The scan of a directory listing onto a device list, as a reference
      definition: the list grown entry by entry, or None once an entry
      fails to parse. */
  function ScanEntries(es: seq<DirEntry>, devs: seq<Device>): (r: Option<seq<Device>>)
    decreases |es|
  {
    if |es| == 0 then Some(devs)
    else if Skipped(es[0]) then ScanEntries(es[1..], devs)
    else
      var one := ScanOne(Some(es[0].name), devs);
      if one.0 != 0 then None else ScanEntries(es[1..], one.1)
  }

  /** A successful scan keeps the devices already listed in front. */
  lemma {:induction false} ScanEntriesGrows(es: seq<DirEntry>, devs: seq<Device>)
    requires ScanEntries(es, devs).Some?
    ensures var d := ScanEntries(es, devs).value;
            |devs| <= |d| && d[..|devs|] == devs
    decreases |es|
  {
    if |es| > 0 {
      var next := if Skipped(es[0]) then devs else ScanOne(Some(es[0].name), devs).1;
      assert ScanEntries(es[1..], next) == ScanEntries(es, devs);
      ScanEntriesGrows(es[1..], next);
      var d := ScanEntries(es, devs).value;
      assert d[..|next|][..|devs|] == d[..|devs|];
    }
  }

  /** The device is named after one of the entries the scan does not pass
      over. */
  predicate FromEntry(dev: Device, es: seq<DirEntry>) {
    exists k :: 0 <= k < |es| && !Skipped(es[k]) && dev.name == es[k].name
  }

  /** Every device a successful scan adds is named after an entry that is
      a link and not hidden. */
  lemma {:induction false} ScanEntriesNames(es: seq<DirEntry>, devs: seq<Device>)
    requires ScanEntries(es, devs).Some?
    ensures var d := ScanEntries(es, devs).value;
            forall j :: |devs| <= j < |d| ==> FromEntry(d[j], es)
    decreases |es|
  {
    if |es| > 0 {
      var next := if Skipped(es[0]) then devs else ScanOne(Some(es[0].name), devs).1;
      assert ScanEntries(es[1..], next) == ScanEntries(es, devs);
      ScanEntriesGrows(es[1..], next);
      ScanEntriesNames(es[1..], next);
      NamesStep(es, devs, next, ScanEntries(es, devs).value);
    }
  }

  /** One entry's step of ScanEntriesNames: the devices named after the
      later entries, and the one this entry may have added. */
  lemma NamesStep(es: seq<DirEntry>, devs: seq<Device>, next: seq<Device>, d: seq<Device>)
    requires |es| > 0
    requires next == devs || (|next| == |devs| + 1 && next[..|devs|] == devs && !Skipped(es[0]) && next[|devs|].name == es[0].name)
    requires |next| <= |d| && d[..|next|] == next
    requires forall j :: |next| <= j < |d| ==> FromEntry(d[j], es[1..])
    ensures forall j :: |devs| <= j < |d| ==> FromEntry(d[j], es)
  {
    forall j | |devs| <= j < |d|
      ensures FromEntry(d[j], es)
    {
      if j < |next| {
        assert next != devs && j == |devs|;
        assert d[j] == d[..|next|][j] == next[j];
        assert !Skipped(es[0]) && d[j].name == es[0].name;
      } else {
        assert FromEntry(d[j], es[1..]);
        var k :| 0 <= k < |es[1..]| && !Skipped(es[1..][k]) && d[j].name == es[1..][k].name;
        assert es[1..][k] == es[k + 1];
        assert 0 <= k + 1 < |es| && !Skipped(es[k + 1]) && d[j].name == es[k + 1].name;
      }
    }
  }

  /** A listing of hidden entries and non-links leaves the list as it was. */
  lemma {:induction false} ScanEntriesSkipsAll(es: seq<DirEntry>, devs: seq<Device>)
    requires forall k :: 0 <= k < |es| ==> Skipped(es[k])
    ensures ScanEntries(es, devs) == Some(devs)
    decreases |es|
  {
    if |es| > 0 {
      assert forall k :: 0 <= k < |es[1..]| ==> es[1..][k] == es[k + 1];
      ScanEntriesSkipsAll(es[1..], devs);
    }
  }

  /** cleanup_fslmc_device_list: every device removed from the front of
      the list and freed; `freed` lists them in the order they were freed. */
  method CleanupDeviceList(devs: seq<Device>) returns (rest: seq<Device>, freed: seq<Device>)
    ensures rest == []
    ensures freed == devs
  {
    rest := devs;
    freed := [];
    while |rest| > 0
      invariant freed + rest == devs
      decreases |rest|
    {
      freed := freed + [rest[0]];
      rest := rest[1..];
    }
  }

  /** rte_fslmc_scan. `scanned` is the function's static process_once
      flag; `groupOk` whether the container group was found and `dir` the
      device directory's listing, None when it cannot be opened. Always 0;
      a repeated call, or a group or directory failure, changes nothing,
      and a failing entry empties the whole list. */
  method Scan(scanned: bool, devs: seq<Device>, groupOk: bool, dir: Option<seq<DirEntry>>)
    returns (ret: int, scanned': bool, devs': seq<Device>)
    ensures ret == 0 && scanned'
    ensures scanned || !groupOk || dir.None? ==> devs' == devs
    ensures !scanned && groupOk && dir.Some? ==>
      devs' == match ScanEntries(dir.value, devs) case None => [] case Some(d) => d
  {
    ret := 0;
    scanned' := true;
    devs' := devs;
    if scanned || !groupOk || dir.None? {
      return;
    }
    var es := dir.value;
    var failed := false;
    var i := 0;
    while i < |es|
      invariant 0 <= i <= |es|
      invariant ScanEntries(es, devs) == ScanEntries(es[i..], devs')
    {
      assert es[i..][0] == es[i] && es[i..][1..] == es[i + 1..];
      if CharAt(es[i].name, 0) == '.' || !es[i].isLink {
        i := i + 1;
        continue;
      }
      var one := ScanOne(Some(es[i].name), devs');
      if one.0 != 0 {
        failed := true;
        break;
      }
      devs' := one.1;
      i := i + 1;
    }
    if failed {
      var freed;
      devs', freed := CleanupDeviceList(devs');
    }
  }

  // ---------------------------------------------------------------------
  // rte_fslmc_match and rte_fslmc_probe

  /** rte_fslmc_match: 0 when the driver serves the device's type, 1
      otherwise. */
  function Match(drv: Driver, dev: Device): (r: int)
    ensures r == 0 <==> drv.drvType == dev.devType
    ensures r == 0 || r == 1
  {
    if drv.drvType == dev.devType then 0 else 1
  }

  /** A driver the probe loop calls for a device: it matches and has a
      probe hook. */
  predicate Eligible(drv: Driver, dev: Device) {
    Match(drv, dev) == 0 && drv.hasProbe
  }

  /** The first eligible driver for `dev` at position j or later. */
  function FirstProbeFrom(drivers: seq<Driver>, dev: Device, j: nat): (r: Option<nat>)
    requires j <= |drivers|
    ensures r.Some? ==> j <= r.value < |drivers| && Eligible(drivers[r.value], dev)
    ensures r.Some? ==> forall k :: j <= k < r.value ==> !Eligible(drivers[k], dev)
    ensures r.None? ==> forall k :: j <= k < |drivers| ==> !Eligible(drivers[k], dev)
    decreases |drivers| - j
  {
    if j == |drivers| then None
    else if Eligible(drivers[j], dev) then Some(j)
    else FirstProbeFrom(drivers, dev, j + 1)
  }

  /** The driver whose probe is called for `dev`: the first eligible one
      in registration order. */
  function FirstProbe(drivers: seq<Driver>, dev: Device): Option<nat> {
    FirstProbeFrom(drivers, dev, 0)
  }

  /** The probe calls for one device at position i. */
  function CallsFor(i: nat, dev: Device, drivers: seq<Driver>): seq<Call> {
    match FirstProbe(drivers, dev)
    case None => []
    case Some(k) => [Call(i, k)]
  }

  /** The probe calls over the whole device list, in list order: the
      reference definition of the dispatch loop. */
  function Dispatch(devs: seq<Device>, drivers: seq<Driver>): (calls: seq<Call>)
    ensures |calls| <= |devs|
  {
    if |devs| == 0 then []
    else Dispatch(devs[..|devs| - 1], drivers) + CallsFor(|devs| - 1, devs[|devs| - 1], drivers)
  }

  /** Each dispatch call goes to the first eligible driver of a listed
      device, and the calls run over the devices in list order, so no
      device is probed twice. */
  lemma {:induction false} DispatchCalls(devs: seq<Device>, drivers: seq<Driver>)
    ensures var calls := Dispatch(devs, drivers);
            forall n :: 0 <= n < |calls| ==>
              calls[n].device < |devs| && FirstProbe(drivers, devs[calls[n].device]) == Some(calls[n].driver)
    ensures var calls := Dispatch(devs, drivers);
            forall n, m :: 0 <= n < m < |calls| ==> calls[n].device < calls[m].device
  {
    if |devs| > 0 {
      var init := devs[..|devs| - 1];
      DispatchCalls(init, drivers);
      var calls := Dispatch(devs, drivers);
      var last := CallsFor(|devs| - 1, devs[|devs| - 1], drivers);
      assert calls == Dispatch(init, drivers) + last;
      assert forall n :: 0 <= n < |last| ==> last[n].device == |devs| - 1;
      assert forall i :: 0 <= i < |init| ==> init[i] == devs[i];
    }
  }

  /** Every device that has an eligible driver gets its probe call. */
  lemma {:induction false} DispatchComplete(devs: seq<Device>, drivers: seq<Driver>)
    ensures forall i :: 0 <= i < |devs| && FirstProbe(drivers, devs[i]).Some? ==>
              Call(i, FirstProbe(drivers, devs[i]).value) in Dispatch(devs, drivers)
  {
    if |devs| > 0 {
      var init := devs[..|devs| - 1];
      DispatchComplete(init, drivers);
      var calls := Dispatch(devs, drivers);
      var last := CallsFor(|devs| - 1, devs[|devs| - 1], drivers);
      assert calls == Dispatch(init, drivers) + last;
      forall i | 0 <= i < |devs| && FirstProbe(drivers, devs[i]).Some?
        ensures Call(i, FirstProbe(drivers, devs[i]).value) in calls
      {
        if i < |init| {
          assert init[i] == devs[i];
          assert Call(i, FirstProbe(drivers, init[i]).value) in Dispatch(init, drivers);
        } else {
          assert last == [Call(i, FirstProbe(drivers, devs[i]).value)];
        }
      }
    }
  }

  /** rte_fslmc_probe. `setupOk` and `processOk` are the outcomes of the
      VFIO group setup and processing; `calls` lists the driver probe
      hooks called, in order. A driver's own probe result is only logged,
      so it is not an input. Always 0; a VFIO failure calls nothing. */
  method Probe(setupOk: bool, processOk: bool, devs: seq<Device>, drivers: seq<Driver>)
    returns (ret: int, calls: seq<Call>)
    ensures ret == 0
    ensures !(setupOk && processOk) ==> calls == []
    ensures setupOk && processOk ==> calls == Dispatch(devs, drivers)
  {
    ret := 0;
    calls := [];
    if !setupOk || !processOk {
      return;
    }
    var i := 0;
    while i < |devs|
      invariant 0 <= i <= |devs|
      invariant calls == Dispatch(devs[..i], drivers)
    {
      assert devs[..i + 1][..i] == devs[..i];
      ghost var before := calls;
      var j := 0;
      while j < |drivers|
        invariant 0 <= j <= |drivers|
        invariant calls == before
        invariant FirstProbeFrom(drivers, devs[i], j) == FirstProbe(drivers, devs[i])
      {
        if Match(drivers[j], devs[i]) != 0 || !drivers[j].hasProbe {
          j := j + 1;
          continue;
        }
        calls := calls + [Call(i, j)];
        break;
      }
      i := i + 1;
    }
    assert devs[..i] == devs;
  }

  // ---------------------------------------------------------------------
  // rte_fslmc_driver_register and rte_fslmc_driver_unregister

  /** Whether a driver with this id is on the list. */
  predicate Listed(drivers: seq<Driver>, id: nat) {
    exists k :: 0 <= k < |drivers| && drivers[k].id == id
  }

  /** A list holds each driver once. */
  predicate Distinct(drivers: seq<Driver>) {
    forall a, b :: 0 <= a < b < |drivers| ==> drivers[a].id != drivers[b].id
  }

  /** rte_fslmc_driver_register: the driver, not yet on the list, goes to
      its tail with its bus back-reference set. */
  function Register(drivers: seq<Driver>, drv: Driver): (r: (seq<Driver>, Driver))
    requires !Listed(drivers, drv.id)
    ensures r.1.onBus && r.1.id == drv.id
    ensures |r.0| == |drivers| + 1 && r.0[..|drivers|] == drivers && r.0[|drivers|] == r.1
    ensures Distinct(drivers) ==> Distinct(r.0)
  {
    var d := drv.(onBus := true);
    (drivers + [d], d)
  }

  /** The position of the driver with this id. */
  function IndexOf(drivers: seq<Driver>, id: nat): (k: nat)
    requires Listed(drivers, id)
    ensures k < |drivers| && drivers[k].id == id
    ensures forall j :: 0 <= j < k ==> drivers[j].id != id
  {
    if drivers[0].id == id then 0
    else
      assert Listed(drivers[1..], id) by {
        var k :| 0 <= k < |drivers| && drivers[k].id == id;
        assert drivers[1..][k - 1].id == id;
      }
      1 + IndexOf(drivers[1..], id)
  }

  /** rte_fslmc_driver_unregister: that driver taken off the list and its
      back-reference cleared. */
  function Unregister(drivers: seq<Driver>, id: nat): (r: (seq<Driver>, Driver))
    requires Listed(drivers, id) && Distinct(drivers)
    ensures !r.1.onBus && r.1.id == id
    ensures |r.0| == |drivers| - 1 && !Listed(r.0, id)
    ensures forall k :: 0 <= k < |drivers| && drivers[k].id != id ==> drivers[k] in r.0
    ensures Distinct(r.0)
  {
    var k := IndexOf(drivers, id);
    var rest := drivers[..k] + drivers[k + 1..];
    assert forall j :: 0 <= j < |rest| ==> rest[j] == drivers[if j < k then j else j + 1];
    assert forall j :: 0 <= j < |drivers| && j != k ==> drivers[j] == rest[if j < k then j else j - 1];
    (rest, drivers[k].(onBus := false))
  }

  /** The list without the driver of this id: the reference for what
      unregistering leaves. */
  function Without(drivers: seq<Driver>, id: nat): seq<Driver> {
    if |drivers| == 0 then []
    else if drivers[0].id == id then Without(drivers[1..], id)
    else [drivers[0]] + Without(drivers[1..], id)
  }

  lemma {:induction false} WithoutAbsent(drivers: seq<Driver>, id: nat)
    requires !Listed(drivers, id)
    ensures Without(drivers, id) == drivers
  {
    if |drivers| > 0 {
      assert !Listed(drivers[1..], id);
      WithoutAbsent(drivers[1..], id);
      assert drivers == [drivers[0]] + drivers[1..];
    }
  }

  lemma {:induction false} WithoutAppend(a: seq<Driver>, b: seq<Driver>, id: nat)
    ensures Without(a + b, id) == Without(a, id) + Without(b, id)
  {
    if |a| > 0 {
      assert (a + b)[1..] == a[1..] + b;
      WithoutAppend(a[1..], b, id);
    } else {
      assert a + b == b;
    }
  }

  lemma WithoutAround(front: seq<Driver>, drv: Driver, back: seq<Driver>)
    requires !Listed(front, drv.id) && !Listed(back, drv.id)
    ensures Without(front + [drv] + back, drv.id) == front + back
  {
    WithoutAppend(front, [drv] + back, drv.id);
    WithoutAppend([drv], back, drv.id);
    WithoutAbsent(front, drv.id);
    WithoutAbsent(back, drv.id);
    assert front + [drv] + back == front + ([drv] + back);
  }

  /** Unregistering keeps every other driver, in the order they were
      registered. */
  lemma UnregisterKeepsOrder(drivers: seq<Driver>, id: nat)
    requires Listed(drivers, id) && Distinct(drivers)
    ensures Unregister(drivers, id).0 == Without(drivers, id)
  {
    var k := IndexOf(drivers, id);
    var front, back := drivers[..k], drivers[k + 1..];
    assert drivers == front + [drivers[k]] + back;
    assert !Listed(back, id);
    WithoutAround(front, drivers[k], back);
  }

  /** Unregistering a driver just registered gives back the list as it
      was, and the driver with its back-reference cleared. */
  lemma UnregisterRegister(drivers: seq<Driver>, drv: Driver)
    requires !Listed(drivers, drv.id) && Distinct(drivers)
    ensures var reg := Register(drivers, drv);
            Unregister(reg.0, drv.id) == (drivers, drv.(onBus := false))
  {
    var reg := Register(drivers, drv);
    assert IndexOf(reg.0, drv.id) == |drivers| by {
      assert forall j :: 0 <= j < |drivers| ==> reg.0[j] == drivers[j];
    }
    assert reg.0[..|drivers|] + reg.0[|drivers| + 1..] == drivers;
  }
}
