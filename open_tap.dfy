/**
 * Opening an OpenVPN TAP device (`openvpn_open` and `open_from_guid`,
 * sim_networks/openvpn/opentap.c): parse the device name after the four-character
 * prefix of the attach string, search the Ethernet device list for it, open it by its
 * adapter GUID, query the TAP driver and make the device ready for the packet functions.
 *
 * The device list (`eth_devices`), opening a device by GUID (`CreateFile` on the path built
 * from it), the two driver queries, and the operating system's error text are inputs.
 */
module OpenTap {
  import opened Wrappers
  import opened VpnIntfs
  import opened TapApi

  /** PCAP_ERRBUF_SIZE: the error buffer's size. */
  const PCAP_ERRBUF_SIZE: nat := 256

  /** The two results `openvpn_open` returns. */
  datatype Status = ScpeOk | ScpeOpenErr

  const UNTERMINATED: CString := "Unterminated tap device name string.\n"
  const NO_SUCH_DEVICE: CString := "No such OpenVPN TAP device.\n"
  const NO_AVAILABLE: CString := "No available OpenVPN devices.\n"
  const UNABLE_TO_OPEN: CString := "Unable to open OpenVPN TAP device.\n"

  // ---------------------------------------------------------------------------
  // The device name

  /** `isspace` in the C locale. */
  predicate IsSpace(c: char)
  {
    c == ' ' || c == '\t' || c == '\n' || c == 0x0B as char || c == 0x0C as char || c == '\r'
  }

  /** The index of the first character at or after `i` that is not white space. */
  function SkipSpaces(s: CString, i: nat): (j: nat)
    decreases |s| - i
    ensures i <= j && (i <= |s| ==> j <= |s|) && !IsSpace(At(s, j))
    ensures forall k :: i <= k < j ==> k < |s| && IsSpace(s[k])
  {
    if IsSpace(At(s, i)) then SkipSpaces(s, i + 1) else i
  }

  /** The index of the first white space at or after `i`, or the end of `s`. */
  function WordEnd(s: CString, i: nat): (j: nat)
    requires i <= |s|
    decreases |s| - i
    ensures i <= j <= |s| && (j < |s| ==> IsSpace(s[j]))
    ensures forall k :: i <= k < j ==> !IsSpace(s[k])
  {
    if i == |s| || IsSpace(s[i]) then i else WordEnd(s, i + 1)
  }

  /**
   * The device name of an attach string: after the first four characters and any white
   * space, either the text between two double quotes (None when the closing quote is
   * missing) or the text up to the next white space or the end.
   */
  function DevName(cmdstr: CString): (name: Option<CString>)
    requires |cmdstr| >= 4
    ensures name.None? ==> At(cmdstr, SkipSpaces(cmdstr, 4)) == '"'
    ensures name.Some? ==> |name.value| <= |cmdstr| - 4
  {
    var s := SkipSpaces(cmdstr, 4);
    if At(cmdstr, s) == '"' then
      match IndexFrom(cmdstr, s + 1, '"')
      case None => None
      case Some(e) => Some(cmdstr[s + 1..e])
    else
      Some(cmdstr[s..WordEnd(cmdstr, s)])
  }

  /** A quoted name lies between two quotes and holds none; it fails only without a closing quote. */
  lemma DevNameQuoted(cmdstr: CString)
    requires |cmdstr| >= 4 && At(cmdstr, SkipSpaces(cmdstr, 4)) == '"'
    ensures var s := SkipSpaces(cmdstr, 4); var name := DevName(cmdstr);
      (name.None? <==> '"' !in cmdstr[s + 1..]) &&
      (name.Some? ==> s + 1 + |name.value| < |cmdstr| && cmdstr[s + 1..s + 1 + |name.value|] == name.value &&
                      cmdstr[s + 1 + |name.value|] == '"' && '"' !in name.value)
  {
    var s := SkipSpaces(cmdstr, 4);
    var rest := cmdstr[s + 1..];
    match IndexFrom(cmdstr, s + 1, '"')
    case None =>
      forall k | 0 <= k < |rest|
        ensures rest[k] != '"'
      {
        assert rest[k] == cmdstr[s + 1 + k];
      }
    case Some(e) =>
      assert rest[e - (s + 1)] == '"';
      assert cmdstr[s + 1..s + 1 + (e - (s + 1))] == cmdstr[s + 1..e];
  }

  /**
   * An unquoted name is the text after the white space up to the next white space or the
   * end, and holds no white space.
   */
  lemma DevNameWord(cmdstr: CString)
    requires |cmdstr| >= 4 && At(cmdstr, SkipSpaces(cmdstr, 4)) != '"'
    ensures var s := SkipSpaces(cmdstr, 4); var name := DevName(cmdstr);
      name.Some? && s + |name.value| <= |cmdstr| && cmdstr[s..s + |name.value|] == name.value &&
      (forall c :: c in name.value ==> !IsSpace(c)) &&
      (s + |name.value| < |cmdstr| ==> IsSpace(cmdstr[s + |name.value|]))
  {
    var s := SkipSpaces(cmdstr, 4);
    var w := cmdstr[s..WordEnd(cmdstr, s)];
    forall c | c in w
      ensures !IsSpace(c)
    {
      var k :| 0 <= k < |w| && w[k] == c;
      assert w[k] == cmdstr[s + k];
    }
  }

  /** The scanning loops of `openvpn_open` that find the device name. */
  method ParseDevName(cmdstr: CString) returns (name: Option<CString>)
    requires |cmdstr| >= 4
    ensures name == DevName(cmdstr)
  {
    var p := ScanSpaces(cmdstr, 4);
    if At(cmdstr, p) == '"' {
      p := p + 1;
      var start := p;
      p := ScanQuoted(cmdstr, p);
      if At(cmdstr, p) == '\0' || At(cmdstr, p) != '"' {
        return None;
      }
      return Some(cmdstr[start..p]);
    } else {
      var start := p;
      p := ScanWord(cmdstr, p);
      return Some(cmdstr[start..p]);
    }
  }

  /** Advance over white space. */
  method ScanSpaces(cmdstr: CString, from: nat) returns (p: nat)
    requires from <= |cmdstr|
    ensures p == SkipSpaces(cmdstr, from)
  {
    p := from;
    while IsSpace(At(cmdstr, p))
      invariant from <= p <= |cmdstr| && SkipSpaces(cmdstr, p) == SkipSpaces(cmdstr, from)
      decreases |cmdstr| - p
    {
      p := p + 1;
    }
  }

  /** Advance to the closing double quote, or to the end when there is none. */
  method ScanQuoted(cmdstr: CString, from: nat) returns (p: nat)
    requires from <= |cmdstr|
    ensures from <= p <= |cmdstr|
    ensures match IndexFrom(cmdstr, from, '"')
            case Some(e) => p == e
            case None => p == |cmdstr|
  {
    p := from;
    while At(cmdstr, p) != '\0' && At(cmdstr, p) != '"'
      invariant from <= p <= |cmdstr| && IndexFrom(cmdstr, p, '"') == IndexFrom(cmdstr, from, '"')
      decreases |cmdstr| - p
    {
      p := p + 1;
    }
  }

  /** Advance to the next white space or the end. */
  method ScanWord(cmdstr: CString, from: nat) returns (p: nat)
    requires from <= |cmdstr|
    ensures p == WordEnd(cmdstr, from)
  {
    p := from;
    while At(cmdstr, p) != '\0' && !IsSpace(At(cmdstr, p))
      invariant from <= p <= |cmdstr| && WordEnd(cmdstr, p) == WordEnd(cmdstr, from)
      decreases |cmdstr| - p
    {
      p := p + 1;
    }
  }

  // ---------------------------------------------------------------------------
  // The device search

  /** A list entry the search may open: flagged OpenVPN, with a GUID that is not all zeros. */
  predicate Candidate(e: EthEntry)
  {
    e.isOpenvpn != 0 && e.adapterGuid != EMPTY_GUID
  }

  /** Which entries are candidates that open. */
  function Openable(devList: seq<EthEntry>, openFromGuid: CString -> Option<nat>): seq<bool>
  {
    seq(|devList|, k requires 0 <= k < |devList| => Candidate(devList[k]) && openFromGuid(devList[k].adapterGuid).Some?)
  }

  /** Which entries are candidates with the given name. */
  function Named(devList: seq<EthEntry>, name: CString): seq<bool>
  {
    seq(|devList|, k requires 0 <= k < |devList| => Candidate(devList[k]) && devList[k].name == name)
  }

  /**
   * Where the search stops, None when it runs off the list: for an empty name the first
   * candidate that opens, otherwise the first candidate with that name.
   */
  function Stop(devList: seq<EthEntry>, name: CString, openFromGuid: CString -> Option<nat>): Option<nat>
  {
    if name == [] then FirstTrue(Openable(devList, openFromGuid), 0) else FirstTrue(Named(devList, name), 0)
  }

  /** Where the search stops, stated outright. */
  lemma StopIsFirst(devList: seq<EthEntry>, name: CString, openFromGuid: CString -> Option<nat>)
    ensures var st := Stop(devList, name, openFromGuid);
      name == [] ==>
        (st.Some? ==> st.value < |devList| && Candidate(devList[st.value]) &&
                      openFromGuid(devList[st.value].adapterGuid).Some?) &&
        forall j :: 0 <= j < (if st.Some? then st.value else |devList|) ==>
          !(Candidate(devList[j]) && openFromGuid(devList[j].adapterGuid).Some?)
    ensures var st := Stop(devList, name, openFromGuid);
      name != [] ==>
        (st.Some? ==> st.value < |devList| && Candidate(devList[st.value]) && devList[st.value].name == name) &&
        forall j :: 0 <= j < (if st.Some? then st.value else |devList|) ==>
          !(Candidate(devList[j]) && devList[j].name == name)
  {
    var bs := if name == [] then Openable(devList, openFromGuid) else Named(devList, name);
    var st := FirstTrue(bs, 0);
    var end := if st.Some? then st.value else |devList|;
    forall j | 0 <= j < end
      ensures !bs[j]
    {
    }
  }

  /** The index of the last candidate before `upto`. */
  function LastCandidate(devList: seq<EthEntry>, upto: nat): (r: Option<nat>)
    requires upto <= |devList|
    ensures r.Some? ==> r.value < upto && Candidate(devList[r.value])
    ensures r.Some? ==> forall j :: r.value < j < upto ==> !Candidate(devList[j])
    ensures r.None? ==> forall j :: 0 <= j < upto ==> !Candidate(devList[j])
  {
    if upto == 0 then None
    else if Candidate(devList[upto - 1]) then Some(upto - 1)
    else LastCandidate(devList, upto - 1)
  }

  /** The message `open_from_guid` leaves in the error buffer when a device does not open. */
  function OpenFailure(guid: CString): (m: CString)
    ensures |m| < PCAP_ERRBUF_SIZE
  {
    Strlcpy("Unable to open OpenVPN TAP device " + guid, PCAP_ERRBUF_SIZE)
  }

  /**
   * The error buffer after a search for an empty name passed the entries before `i`: every
   * candidate among them failed to open, and the last one wrote its message.
   */
  function FailuresBefore(devList: seq<EthEntry>, i: nat, errbuf: CString): CString
    requires i <= |devList|
  {
    match LastCandidate(devList, i)
    case None => errbuf
    case Some(k) => OpenFailure(devList[k].adapterGuid)
  }

  /**
   * The error buffer after the search stopped at `i`: with an empty name, the message of
   * the last candidate that failed to open; with a name, the message of the entry at `i`
   * when it failed to open.
   */
  function SearchMessage(devList: seq<EthEntry>, name: CString, openFromGuid: CString -> Option<nat>,
                         i: nat, errbuf: CString): CString
    requires i <= |devList|
  {
    if name == [] then FailuresBefore(devList, i, errbuf)
    else if i < |devList| && openFromGuid(devList[i].adapterGuid).None? then OpenFailure(devList[i].adapterGuid)
    else errbuf
  }

  /**
   * `open_from_guid`: the handle opened for the GUID (None: INVALID_HANDLE_VALUE); a
   * failure leaves a message naming the GUID in the error buffer.
   */
  method OpenFromGuid(guid: CString, openFromGuid: CString -> Option<nat>, errbuf: CString)
    returns (tapdev: Option<nat>, errbufOut: CString)
    ensures tapdev == openFromGuid(guid)
    ensures tapdev.None? ==> errbufOut == OpenFailure(guid) && |errbufOut| < PCAP_ERRBUF_SIZE
    ensures tapdev.Some? ==> errbufOut == errbuf
  {
    tapdev := openFromGuid(guid);
    errbufOut := errbuf;
    if tapdev.None? {
      errbufOut := OpenFailure(guid);
    }
  }

  /**
   * The search loop of `openvpn_open`: it stops at `Stop` (at the end of the list when
   * that is None) holding the handle of the device opened there.
   */
  method Search(devList: seq<EthEntry>, name: CString, openFromGuid: CString -> Option<nat>, errbuf0: CString)
    returns (i: nat, tapdev: Option<nat>, errbuf: CString)
    ensures i <= |devList|
    ensures Stop(devList, name, openFromGuid).Some? ==>
      i == Stop(devList, name, openFromGuid).value && tapdev == openFromGuid(devList[i].adapterGuid)
    ensures Stop(devList, name, openFromGuid).None? ==> i == |devList| && tapdev.None?
    ensures errbuf == SearchMessage(devList, name, openFromGuid, i, errbuf0)
  {
    ghost var bs := if name == [] then Openable(devList, openFromGuid) else Named(devList, name);
    i, tapdev, errbuf := 0, None, errbuf0;
    while i < |devList|
      invariant i <= |devList| && FirstTrue(bs, i) == Stop(devList, name, openFromGuid)
      invariant tapdev.None? && errbuf == (if name == [] then FailuresBefore(devList, i, errbuf0) else errbuf0)
    {
      SearchStep(devList, name, openFromGuid, i, errbuf0);
      if Candidate(devList[i]) {
        if |name| == 0 {
          tapdev, errbuf := OpenFromGuid(devList[i].adapterGuid, openFromGuid, errbuf);
          if tapdev.Some? {
            return;
          }
        } else if |devList[i].name| == |name| && devList[i].name[..|name|] == name {
          tapdev, errbuf := OpenFromGuid(devList[i].adapterGuid, openFromGuid, errbuf);
          return;
        }
      }
      i := i + 1;
    }
  }

  /** One round of the search loop at an entry where it does not stop. */
  lemma SearchStep(devList: seq<EthEntry>, name: CString, openFromGuid: CString -> Option<nat>, i: nat, errbuf0: CString)
    requires i < |devList|
    ensures var bs := if name == [] then Openable(devList, openFromGuid) else Named(devList, name);
      !bs[i] ==> FirstTrue(bs, i + 1) == FirstTrue(bs, i)
    ensures var bs := if name == [] then Openable(devList, openFromGuid) else Named(devList, name);
      bs[i] ==> FirstTrue(bs, i) == Some(i)
    ensures Candidate(devList[i]) ==> FailuresBefore(devList, i + 1, errbuf0) == OpenFailure(devList[i].adapterGuid)
    ensures !Candidate(devList[i]) ==> FailuresBefore(devList, i + 1, errbuf0) == FailuresBefore(devList, i, errbuf0)
  {
  }

  // ---------------------------------------------------------------------------
  // Opening

  /** How the name parsing and the search of `openvpn_open` come out. */
  datatype SearchResult =
    | Unterminated                          // the quoted name has no closing quote
    | NotFound(named: bool)                 // the search ran off the list
    | Found(index: nat, handle: Option<nat>) // it stopped here, with this handle (None: not opened)

  /** The outcome of parsing `cmdstr` and searching `devList` for its device. */
  function Lookup(cmdstr: CString, devList: seq<EthEntry>, openFromGuid: CString -> Option<nat>): (l: SearchResult)
    requires |cmdstr| >= 4
    ensures l.Found? ==> l.index < |devList| && l.handle == openFromGuid(devList[l.index].adapterGuid)
    ensures l.Unterminated? <==> DevName(cmdstr).None?
  {
    match DevName(cmdstr)
    case None => Unterminated
    case Some(name) =>
      match Stop(devList, name, openFromGuid)
      case None => NotFound(name != [])
      case Some(i) => Found(i, openFromGuid(devList[i].adapterGuid))
  }

  /** The message an unsuccessful search leaves, by how it failed. */
  function Refusal(l: SearchResult): CString
  {
    match l
    case Unterminated => UNTERMINATED
    case NotFound(named) => if named then NO_SUCH_DEVICE else NO_AVAILABLE
    case Found(_, _) => UNABLE_TO_OPEN
  }

  /** A device made ready for the packet functions with the adapter's MAC address `mac`. */
  ghost predicate Ready(dev: EthDev, mac: MacAddress)
    reads dev
  {
    dev.ethApi == EthApiTap && dev.apiFuncs == OpenvpnApiFuncs && dev.adapterMac == mac &&
    dev.sendInternal == 0 && dev.recvInternal == 0 && dev.recvInternalHigh == 0
  }

  /** `initialize_overlapped_io`: both overlapped structures start out zeroed. */
  method InitializeOverlappedIo(dev: EthDev)
    requires dev.Valid()
    modifies dev
    ensures dev.Valid() && dev.Config() == old(dev.Config())
    ensures dev.sendInternal == 0 && dev.recvInternal == 0 && dev.recvInternalHigh == 0
    ensures dev.delivered == old(dev.delivered) && dev.sent == old(dev.sent)
  {
    dev.sendInternal := 0;
    dev.recvInternal, dev.recvInternalHigh := 0, 0;
  }

  /**
   * The part of `openvpn_open` both versions share: parse the name and search the list.
   * Returns the handle and the error buffer, or the status and message of a failure.
   */
  method FindTap(cmdstr: CString, devList: seq<EthEntry>, openFromGuid: CString -> Option<nat>, errbuf0: CString)
    returns (tapdev: Option<nat>, status: Status, errbuf: CString)
    requires |cmdstr| >= 4
    ensures var l := Lookup(cmdstr, devList, openFromGuid);
      l.Found? && l.handle.Some? ==>
        tapdev == l.handle && status == ScpeOk &&
        errbuf == SearchMessage(devList, DevName(cmdstr).value, openFromGuid, l.index, errbuf0)
    ensures var l := Lookup(cmdstr, devList, openFromGuid);
      !(l.Found? && l.handle.Some?) ==> tapdev.None? && status == ScpeOpenErr && errbuf == Refusal(l)
  {
    var name := ParseDevName(cmdstr);
    if name.None? {
      return None, ScpeOpenErr, UNTERMINATED;
    }
    var i;
    i, tapdev, errbuf := Search(devList, name.value, openFromGuid, errbuf0);
    if i >= |devList| {
      if |name.value| > 0 {
        return None, ScpeOpenErr, NO_SUCH_DEVICE;
      } else {
        return None, ScpeOpenErr, NO_AVAILABLE;
      }
    }
    if tapdev.None? {
      return None, ScpeOpenErr, UNABLE_TO_OPEN;
    }
    status := ScpeOk;
  }

  /** Windows' FAILED test: an HRESULT is a failure when it is negative. */
  predicate Failed(hr: int)
  {
    hr < 0
  }

  /** The BOOL that `DeviceIoControl` returns. */
  function Bool(ok: bool): (b: int)
    ensures b == 0 || b == 1
  {
    if ok then 1 else 0
  }

  /** FAILED applied to a BOOL never holds, so a failed driver query goes unnoticed. */
  lemma FailedMissesBool(ok: bool)
    ensures !Failed(Bool(ok))
  {
  }

  /**
   * `openvpn_open` as written: both driver queries are tested with FAILED, which never
   * holds for their BOOL results, so the device is made ready whatever they return; the
   * adapter's MAC address stays as it was when its query fails.
   */
  method OpenvpnOpenAsWritten(dev: EthDev, cmdstr: CString, devList: seq<EthEntry>,
                              openFromGuid: CString -> Option<nat>, versionOk: bool,
                              macReply: Option<MacAddress>, errbuf0: CString)
    returns (status: Status, errbuf: CString)
    requires |cmdstr| >= 4 && dev.Valid()
    modifies dev
    ensures dev.Valid()
    ensures var l := Lookup(cmdstr, devList, openFromGuid);
      !(l.Found? && l.handle.Some?) ==> status == ScpeOpenErr && errbuf == Refusal(l) && unchanged(dev)
    ensures var l := Lookup(cmdstr, devList, openFromGuid);
      l.Found? && l.handle.Some? ==>
        status == ScpeOk && dev.tapDev == l.handle &&
        Ready(dev, if macReply.Some? then macReply.value else old(dev.adapterMac)) &&
        dev.physicalAddr == old(dev.physicalAddr) && dev.delivered == old(dev.delivered) && dev.sent == old(dev.sent) &&
        errbuf == SearchMessage(devList, DevName(cmdstr).value, openFromGuid, l.index, errbuf0)
  {
    var tapdev;
    tapdev, status, errbuf := FindTap(cmdstr, devList, openFromGuid, errbuf0);
    if tapdev.None? {
      return;
    }
    dev.tapDev := tapdev;
    // FAILED(DeviceIoControl(...)) on the version query: never true (FailedMissesBool).
    // FAILED(DeviceIoControl(...)) on the MAC query, which writes the address when it succeeds.
    if macReply.Some? {
      dev.adapterMac := macReply.value;
    }
    InitializeOverlappedIo(dev);
    dev.ethApi := EthApiTap;
    dev.apiFuncs := OpenvpnApiFuncs;
    status := ScpeOk;
  }

  /**
   * `openvpn_open` as evidently intended: a failed driver query takes the error path, which
   * reports the operating system's error text and SCPE_OPENERR.
   */
  method OpenvpnOpen(dev: EthDev, cmdstr: CString, devList: seq<EthEntry>,
                     openFromGuid: CString -> Option<nat>, versionOk: bool,
                     macReply: Option<MacAddress>, osError: CString, errbuf0: CString)
    returns (status: Status, errbuf: CString)
    requires |cmdstr| >= 4 && dev.Valid()
    modifies dev
    ensures dev.Valid()
    ensures var l := Lookup(cmdstr, devList, openFromGuid);
      !(l.Found? && l.handle.Some?) ==> status == ScpeOpenErr && errbuf == Refusal(l) && unchanged(dev)
    ensures var l := Lookup(cmdstr, devList, openFromGuid);
      l.Found? && l.handle.Some? ==>
        dev.tapDev == l.handle &&
        dev.physicalAddr == old(dev.physicalAddr) && dev.delivered == old(dev.delivered) && dev.sent == old(dev.sent)
    ensures var l := Lookup(cmdstr, devList, openFromGuid);
      l.Found? && l.handle.Some? && versionOk && macReply.Some? ==>
        status == ScpeOk && Ready(dev, macReply.value) &&
        errbuf == SearchMessage(devList, DevName(cmdstr).value, openFromGuid, l.index, errbuf0)
    ensures var l := Lookup(cmdstr, devList, openFromGuid);
      l.Found? && l.handle.Some? && !(versionOk && macReply.Some?) ==>
        status == ScpeOpenErr && errbuf == Strlcpy(osError, PCAP_ERRBUF_SIZE) &&
        dev.ethApi == old(dev.ethApi) && dev.apiFuncs == old(dev.apiFuncs) && dev.adapterMac == old(dev.adapterMac) &&
        dev.sendInternal == old(dev.sendInternal) && dev.recvInternal == old(dev.recvInternal) &&
        dev.recvInternalHigh == old(dev.recvInternalHigh)
  {
    var tapdev;
    tapdev, status, errbuf := FindTap(cmdstr, devList, openFromGuid, errbuf0);
    if tapdev.None? {
      return;
    }
    dev.tapDev := tapdev;
    if !versionOk || macReply.None? {
      return ScpeOpenErr, Strlcpy(osError, PCAP_ERRBUF_SIZE);
    }
    dev.adapterMac := macReply.value;
    InitializeOverlappedIo(dev);
    dev.ethApi := EthApiTap;
    dev.apiFuncs := OpenvpnApiFuncs;
    status := ScpeOk;
  }

  // ---------------------------------------------------------------------------
  // A scenario showing the driver queries' failures going unnoticed

  /** One OpenVPN adapter with a non-zero GUID. */
  const TAP0: EthEntry := EthEntry("tap0", "", EthApiTap, 1, "{11111111-2222-3333-4444-555555555555}", 0, 0)

  /** With an empty name, the search stops at the one adapter and opens it. */
  lemma OnlyAdapterFound(openFromGuid: CString -> Option<nat>)
    requires openFromGuid(TAP0.adapterGuid) == Some(7)
    ensures Lookup("tap:", [TAP0], openFromGuid) == Found(0, Some(7))
    ensures SearchMessage([TAP0], "", openFromGuid, 0, "") == ""
  {
    assert TAP0.adapterGuid[1] != EMPTY_GUID[1];
    assert Openable([TAP0], openFromGuid)[0];
    assert DevName("tap:") == Some("");
  }

  /**
   * When both driver queries fail, `openvpn_open` as written reports success with the
   * adapter's MAC address unknown, where the intended version reports SCPE_OPENERR.
   */
  method QueryFailureUnnoticed() returns (asWritten: Status, corrected: Status)
    ensures asWritten == ScpeOk && corrected == ScpeOpenErr
  {
    var openFromGuid := (g: CString) => Some(7);
    OnlyAdapterFound(openFromGuid);
    var d1 := new EthDev(SIM_MAC);
    var e1;
    asWritten, e1 := OpenvpnOpenAsWritten(d1, "tap:", [TAP0], openFromGuid, false, None, "");
    var d2 := new EthDev(SIM_MAC);
    var e2;
    corrected, e2 := OpenvpnOpen(d2, "tap:", [TAP0], openFromGuid, false, None, "", "");
  }
}
