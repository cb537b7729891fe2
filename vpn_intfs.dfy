/**
 * OpenVPN TAP device discovery of sim_networks/openvpn/vpnintfs.c: `is_openvpn_hwid`, the
 * choice of a device's hardware ID from its REG_SZ or REG_MULTI_SZ registry value, and the
 * filling of the ETH_LIST array in `openvpn_tap_devices`.
 *
 * The SetupAPI device-information set is an input: one `DevInfo` per enumeration index
 * (enumeration past the last one reports ERROR_NO_MORE_ITEMS), with the registry reads
 * already done. A device's GUID is given by its brace-enclosed text, as `StringFromGUID2`
 * writes it. The wide-to-narrow conversions of adapter names are the identity here.
 */
module VpnIntfs {
  import opened Wrappers
  import opened Win32Utilities

  /** TAP_WIN_COMPONENT_ID, the preferred OpenVPN hardware ID. */
  const TAP_WIN_COMPONENT_ID: string := "tap0901"

  /** `openvpn_hwids`: the hardware IDs an OpenVPN TAP adapter may carry, in table order. */
  const OPENVPN_HWIDS: seq<string> := ["root\\tap0901", TAP_WIN_COMPONENT_ID]

  /** The brace-enclosed text of the all-zero GUID, GUID_EMPTY_GUID. */
  const EMPTY_GUID: string := "{00000000-0000-0000-0000-000000000000}"

  predicate OpenvpnHwid(id: string)
  {
    id in OPENVPN_HWIDS
  }

  /** `is_openvpn_hwid`: compare the ID with each table entry in turn. */
  method IsOpenvpnHwid(hwid: CString) returns (r: bool)
    ensures r <==> hwid == "root\\tap0901" || hwid == "tap0901"
    ensures r == OpenvpnHwid(hwid)
  {
    var i := 0;
    while i < |OPENVPN_HWIDS|
      invariant 0 <= i <= |OPENVPN_HWIDS|
      invariant forall j :: 0 <= j < i ==> hwid != OPENVPN_HWIDS[j]
    {
      if hwid == OPENVPN_HWIDS[i] {
        return true;
      }
      i := i + 1;
    }
    assert OPENVPN_HWIDS[0] == "root\\tap0901" && OPENVPN_HWIDS[1] == "tap0901";
    return false;
  }

  // ---------------------------------------------------------------------------
  // Hardware-ID selection

  /** A device's SPDRP_HARDWAREID registry value, by its data type. */
  datatype RegValue =
    | RegSz(text: CString)
    | RegMultiSz(data: seq<char>)
    | RegOther(dataType: nat)

  /** End of the NUL-terminated string at `from` of a REG_MULTI_SZ buffer (`from + strlen`). */
  function StrEnd(data: seq<char>, from: nat): (e: nat)
    requires from <= |data|
    ensures from <= e <= |data| && '\0' !in data[from..e]
    ensures e < |data| ==> data[e] == '\0'
  {
    match IndexFrom(data, from, '\0')
    case None => |data|
    case Some(k) => k
  }

  /**
   * The strings of a REG_MULTI_SZ buffer from offset `from`, each up to its NUL, ending at
   * the empty string that terminates the list (or at the end of the buffer).
   */
  function MultiSzStrings(data: seq<char>, from: nat): (ids: seq<CString>)
    decreases |data| - from
    ensures At(data, from) == '\0' <==> ids == []
  {
    if At(data, from) == '\0' then []
    else
      var e := StrEnd(data, from);
      [data[from..e]] + MultiSzStrings(data, e + 1)
  }

  /** The first of `ids` that is an OpenVPN hardware ID. */
  function FirstHwid(ids: seq<CString>): (r: Option<CString>)
    ensures r.Some? ==> r.value in ids && OpenvpnHwid(r.value)
    ensures r.None? <==> forall k :: 0 <= k < |ids| ==> !OpenvpnHwid(ids[k])
  {
    if ids == [] then None
    else if OpenvpnHwid(ids[0]) then Some(ids[0])
    else FirstHwid(ids[1..])
  }

  /** The first OpenVPN ID from one string on: that string if it is one, else the first after it. */
  lemma MultiSzFirst(data: seq<char>, s: nat)
    requires At(data, s) != '\0'
    ensures s < |data|
    ensures var id := data[s..StrEnd(data, s)];
            FirstHwid(MultiSzStrings(data, s))
            == if OpenvpnHwid(id) then Some(id) else FirstHwid(MultiSzStrings(data, StrEnd(data, s) + 1))
  {
    var ids := MultiSzStrings(data, s);
    assert ids[1..] == MultiSzStrings(data, StrEnd(data, s) + 1);
  }

  /** The hardware ID a device is kept for: REG_SZ when it matches, the first match of a REG_MULTI_SZ. */
  function HardwareId(v: RegValue): Option<CString>
  {
    match v
    case RegSz(t) => if OpenvpnHwid(t) then Some(t) else None
    case RegMultiSz(d) => FirstHwid(MultiSzStrings(d, 0))
    case RegOther(_) => None
  }

  /**
   * The REG_MULTI_SZ scan of `openvpn_tap_devices`: step from string to string, choosing the
   * first OpenVPN ID and rejecting the device at the empty string that ends the list.
   */
  method ScanMultiSz(data: seq<char>) returns (r: Option<CString>)
    ensures r == FirstHwid(MultiSzStrings(data, 0))
  {
    var s := 0;
    while true
      invariant s <= |data| + 1
      invariant FirstHwid(MultiSzStrings(data, s)) == FirstHwid(MultiSzStrings(data, 0))
      decreases |data| + 1 - s
    {
      if At(data, s) == '\0' {
        return None;
      }
      MultiSzFirst(data, s);
      var e := StrEnd(data, s);
      var id: CString := data[s..e];
      var ok := IsOpenvpnHwid(id);
      if ok {
        return Some(id);
      }
      s := e + 1;
    }
  }

  /** Hardware-ID selection: REG_SZ is checked whole, REG_MULTI_SZ scanned, other types skipped. */
  method SelectHardwareId(v: RegValue) returns (r: Option<CString>)
    ensures r == HardwareId(v)
    ensures v.RegSz? ==> (r.Some? <==> OpenvpnHwid(v.text)) && (r.Some? ==> r.value == v.text)
    ensures v.RegOther? ==> r.None?
  {
    match v
    case RegSz(t) =>
      var ok := IsOpenvpnHwid(t);
      r := if ok then Some(t) else None;
    case RegMultiSz(d) =>
      r := ScanMultiSz(d);
    case RegOther(_) =>
      r := None;
  }

  // ---------------------------------------------------------------------------
  // ETH_LIST entries

  /** The `eth_api` field: only ETH_API_TAP matters here. */
  datatype EthApi = EthApiTap | EthApiOther(code: int)

  /** One ETH_LIST record; the adapter GUID is given by its brace-enclosed text. */
  datatype EthEntry = EthEntry(
    name: CString,
    desc: string,
    ethApi: EthApi,
    isOpenvpn: int,
    adapterGuid: CString,
    adapterIdx: int,
    adapterIdx6: int)

  /** What one enumeration index of the device-information set yields. */
  datatype DevInfo =
      /** SetupDiEnumDeviceInfo failed with an error other than ERROR_NO_MORE_ITEMS. */
    | EnumFailed
      /** A device: its hardware-ID value (None: the property read failed) and its adapter
          GUID (None: `get_net_adapter_guid` reported failure). That function starts from
          SCPE_OK, so when the NetCfgInstanceId registry reads fail it still reports success
          and leaves the GUID unwritten: that case is a Some holding whatever GUID the
          caller's variable held. */
    | Device(hardwareIds: Option<RegValue>, adapterGuid: Option<CString>)

  /** `strlcpy(dst, src, size)`: what `dst` holds afterwards, at most `size - 1` characters of `src`. */
  function Strlcpy(src: CString, size: nat): (dst: CString)
    requires size > 0
    ensures |dst| < size && |dst| <= |src| && dst == src[..|dst|]
    ensures |src| < size ==> dst == src
    ensures |src| >= size ==> |dst| == size - 1
  {
    if |src| < size then src else src[..size - 1]
  }

  /**
   * An entry's description: the adapter's description and then, when that was copied whole,
   * as much of " [hwid]" as still fits in `size` characters with the terminator.
   */
  function Description(desc: CString, hwid: CString, size: nat): (d: string)
    requires size > 0
    ensures |d| < size
    ensures |desc| >= size ==> d == desc[..size - 1]
    ensures |desc| < size ==> |d| <= |desc + " [" + hwid + "]"| && d == (desc + " [" + hwid + "]")[..|d|]
    ensures |desc| < size && |desc + " [" + hwid + "]"| < size ==> d == desc + " [" + hwid + "]"
    ensures |desc| < size ==> |d| == if |desc| + |hwid| + 3 < size then |desc| + |hwid| + 3 else size - 1
    ensures |desc| < size ==> d[..|desc|] == desc
  {
    var copied := Strlcpy(desc, size);
    if |desc| < size then
      var tail := Strlcpy(" [" + hwid + "]", size - |desc|);
      assert desc + " [" + hwid + "]" == desc + (" [" + hwid + "]");
      copied + tail
    else copied
  }

  /** Index of the first adapter at or after `from` whose AdapterName equals `name`. */
  function FirstNamed(adapters: seq<Adapter>, name: CString, from: nat): (r: Option<nat>)
    decreases |adapters| - from
    ensures r.Some? ==> from <= r.value < |adapters| && adapters[r.value].adapterName == name
    ensures r.Some? ==> forall j :: from <= j < r.value ==> adapters[j].adapterName != name
    ensures r.None? ==> forall j :: from <= j < |adapters| ==> adapters[j].adapterName != name
  {
    if from >= |adapters| then None
    else if adapters[from].adapterName == name then Some(from)
    else FirstNamed(adapters, name, from + 1)
  }

  /** The metadata search of `openvpn_tap_devices`: walk the adapter list for the device's GUID. */
  method FindAdapterNamed(adapters: seq<Adapter>, name: CString) returns (r: Option<nat>)
    ensures r == FirstNamed(adapters, name, 0)
  {
    var i := 0;
    while i < |adapters|
      invariant 0 <= i <= |adapters|
      invariant FirstNamed(adapters, name, 0) == FirstNamed(adapters, name, i)
    {
      if adapters[i].adapterName == name {
        return Some(i);
      }
      i := i + 1;
    }
    return None;
  }

  /** The record written for a device with OpenVPN ID `hwid` and GUID `guid` found as `adapter`. */
  function EntryFor(adapter: Adapter, hwid: CString, guid: CString, nameMax: nat, descMax: nat): EthEntry
    requires nameMax > 0 && descMax > 0
  {
    EthEntry(Strlcpy(adapter.friendlyName, nameMax), Description(adapter.description, hwid, descMax),
             EthApiTap, 1, guid, adapter.ifIndex, adapter.ipv6IfIndex)
  }

  /**
   * The record a device contributes, if any: a device is kept only when its hardware ID
   * is an OpenVPN one, its GUID was read, and an adapter carries that GUID as its name.
   */
  function DeviceEntry(d: DevInfo, adapters: seq<Adapter>, nameMax: nat, descMax: nat): Option<EthEntry>
    requires nameMax > 0 && descMax > 0
  {
    match d
    case EnumFailed => None
    case Device(ids, guid) =>
      if ids.None? || guid.None? then None
      else match HardwareId(ids.value)
        case None => None
        case Some(hwid) =>
          match FirstNamed(adapters, guid.value, 0)
          case None => None
          case Some(k) => Some(EntryFor(adapters[k], hwid, guid.value, nameMax, descMax))
  }

  /**
   * A device is kept exactly when its hardware ID is an OpenVPN one, its GUID was read and
   * an adapter carries that GUID as its name; its record is marked TAP API and OpenVPN and
   * carries the GUID and the first such adapter's two indices.
   */
  lemma DeviceEntryKept(d: DevInfo, adapters: seq<Adapter>, nameMax: nat, descMax: nat)
    requires nameMax > 0 && descMax > 0
    ensures var e := DeviceEntry(d, adapters, nameMax, descMax);
            e.Some? <==> d.Device? && d.hardwareIds.Some? && HardwareId(d.hardwareIds.value).Some? &&
                         d.adapterGuid.Some? && FirstNamed(adapters, d.adapterGuid.value, 0).Some?
    ensures var e := DeviceEntry(d, adapters, nameMax, descMax);
            e.Some? ==> e.value.ethApi == EthApiTap && e.value.isOpenvpn == 1 &&
                        e.value.adapterGuid == d.adapterGuid.value &&
                        e.value.adapterIdx == adapters[FirstNamed(adapters, d.adapterGuid.value, 0).value].ifIndex &&
                        e.value.adapterIdx6 == adapters[FirstNamed(adapters, d.adapterGuid.value, 0).value].ipv6IfIndex
    ensures var e := DeviceEntry(d, adapters, nameMax, descMax);
            e.Some? ==> |e.value.name| < nameMax && |e.value.desc| < descMax
  {
  }

  /** The record a device contributes, as a list of zero or one records. */
  function DeviceEntries(d: DevInfo, adapters: seq<Adapter>, nameMax: nat, descMax: nat): seq<EthEntry>
    requires nameMax > 0 && descMax > 0
  {
    match DeviceEntry(d, adapters, nameMax, descMax)
    case None => []
    case Some(e) => [e]
  }

  /** The records of all devices, in enumeration order, without the `maxList` bound. */
  function TapEntries(devs: seq<DevInfo>, adapters: seq<Adapter>, nameMax: nat, descMax: nat): (es: seq<EthEntry>)
    requires nameMax > 0 && descMax > 0
    ensures |es| <= |devs|
  {
    if devs == [] then []
    else TapEntries(devs[..|devs| - 1], adapters, nameMax, descMax) + DeviceEntries(devs[|devs| - 1], adapters, nameMax, descMax)
  }

  /** The records of the first devices start the records of all of them. */
  lemma {:induction false} TapEntriesPrefix(devs: seq<DevInfo>, i: nat, adapters: seq<Adapter>, nameMax: nat, descMax: nat)
    requires nameMax > 0 && descMax > 0 && i <= |devs|
    ensures TapEntries(devs[..i], adapters, nameMax, descMax) <= TapEntries(devs, adapters, nameMax, descMax)
    decreases |devs| - i
  {
    if i < |devs| {
      TapEntriesPrefix(devs[..|devs| - 1], i, adapters, nameMax, descMax);
      assert devs[..|devs| - 1][..i] == devs[..i];
    } else {
      assert devs[..i] == devs;
    }
  }

  /** Every record is marked as an OpenVPN TAP device. */
  lemma {:induction false} TapEntriesMarked(devs: seq<DevInfo>, adapters: seq<Adapter>, nameMax: nat, descMax: nat)
    requires nameMax > 0 && descMax > 0
    ensures forall e :: e in TapEntries(devs, adapters, nameMax, descMax) ==> e.ethApi == EthApiTap && e.isOpenvpn == 1
  {
    if devs != [] {
      TapEntriesMarked(devs[..|devs| - 1], adapters, nameMax, descMax);
      DeviceEntryKept(devs[|devs| - 1], adapters, nameMax, descMax);
    }
  }

  /** A device whose GUID names no adapter adds no record. */
  lemma UnmatchedDeviceAddsNothing(devs: seq<DevInfo>, ids: Option<RegValue>, guid: CString,
                                   adapters: seq<Adapter>, nameMax: nat, descMax: nat)
    requires nameMax > 0 && descMax > 0
    requires forall j :: 0 <= j < |adapters| ==> adapters[j].adapterName != guid
    ensures TapEntries(devs + [Device(ids, Some(guid))], adapters, nameMax, descMax)
         == TapEntries(devs, adapters, nameMax, descMax)
  {
    assert (devs + [Device(ids, Some(guid))])[..|devs|] == devs;
  }

  /**
   * `openvpn_tap_devices`: enumerate the devices while fewer than `maxList` records have
   * been written, writing one record per kept device at `ethDevices[curElt]`, and return
   * the number written. None stands for the early returns of 0 (no console window, no
   * device-information set).
   */
  method OpenvpnTapDevices(ethDevices: array<EthEntry>, maxList: int, devices: Option<seq<DevInfo>>,
                           adapters: seq<Adapter>, nameMax: nat, descMax: nat) returns (count: int)
    requires nameMax > 0 && descMax > 0 && maxList <= ethDevices.Length
    modifies ethDevices
    ensures devices.None? ==> count == 0
    ensures devices.Some? ==>
              var all := TapEntries(devices.value, adapters, nameMax, descMax);
              count == Written(maxList, |all|) && ethDevices[..count] == all[..count]
    ensures 0 <= count <= ethDevices.Length && ethDevices[count..] == old(ethDevices[count..])
  {
    if devices.None? {
      return 0;
    }
    var devs := devices.value;
    count := 0;
    var i := 0;
    while count < maxList && i < |devs|
      invariant 0 <= i <= |devs| && 0 <= count && (count == 0 || count <= maxList)
      invariant ethDevices[..count] == TapEntries(devs[..i], adapters, nameMax, descMax)
      invariant ethDevices[count..] == old(ethDevices[count..])
    {
      TapEntriesStep(devs, i, adapters, nameMax, descMax);
      count := AddDevice(ethDevices, count, devs[i], adapters, nameMax, descMax);
      i := i + 1;
    }
    TapEntriesTaken(devs, i, maxList, adapters, nameMax, descMax);
  }

  /** How many records a list of `maxList` slots receives out of `n` candidates. */
  function Written(maxList: int, n: nat): (w: nat)
    ensures w <= n && (maxList > 0 ==> w <= maxList) && (maxList <= 0 ==> w == 0)
    ensures maxList > 0 ==> w == n || w == maxList
  {
    if maxList <= 0 then 0 else if n < maxList then n else maxList
  }

  /** The records of one more device follow those of the devices before it. */
  lemma TapEntriesStep(devs: seq<DevInfo>, i: nat, adapters: seq<Adapter>, nameMax: nat, descMax: nat)
    requires nameMax > 0 && descMax > 0 && i < |devs|
    ensures TapEntries(devs[..i + 1], adapters, nameMax, descMax)
         == TapEntries(devs[..i], adapters, nameMax, descMax) + DeviceEntries(devs[i], adapters, nameMax, descMax)
  {
    assert devs[..i + 1][..i] == devs[..i];
  }

  /** When the enumeration stops, the records written are the first ones of all devices. */
  lemma TapEntriesTaken(devs: seq<DevInfo>, i: nat, maxList: int, adapters: seq<Adapter>, nameMax: nat, descMax: nat)
    requires nameMax > 0 && descMax > 0 && i <= |devs|
    requires var n := |TapEntries(devs[..i], adapters, nameMax, descMax)|;
             (n == 0 || n <= maxList) && (n >= maxList || i == |devs|)
    ensures var taken := TapEntries(devs[..i], adapters, nameMax, descMax);
            var all := TapEntries(devs, adapters, nameMax, descMax);
            |taken| == Written(maxList, |all|) && taken == all[..|taken|]
  {
    TapEntriesPrefix(devs, i, adapters, nameMax, descMax);
    if i == |devs| {
      assert devs[..i] == devs;
    }
  }

  /**
   * One round of the enumeration loop: skip a device that fails a check, and otherwise
   * write its record at `ethDevices[count]` and count it.
   */
  method AddDevice(ethDevices: array<EthEntry>, count: nat, d: DevInfo, adapters: seq<Adapter>,
                   nameMax: nat, descMax: nat) returns (next: nat)
    requires nameMax > 0 && descMax > 0 && count < ethDevices.Length
    modifies ethDevices
    ensures next == count + |DeviceEntries(d, adapters, nameMax, descMax)|
    ensures ethDevices[..next] == old(ethDevices[..count]) + DeviceEntries(d, adapters, nameMax, descMax)
    ensures ethDevices[next..] == old(ethDevices[next..])
  {
    next := count;
    if d.EnumFailed? || d.hardwareIds.None? {
      return;
    }
    var hwid := SelectHardwareId(d.hardwareIds.value);
    if hwid.None? || d.adapterGuid.None? {
      return;
    }
    var k := FindAdapterNamed(adapters, d.adapterGuid.value);
    if k.Some? {
      ethDevices[count] := EntryFor(adapters[k.value], hwid.value, d.adapterGuid.value, nameMax, descMax);
      next := count + 1;
    }
  }
}
