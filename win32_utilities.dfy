/**
 * Adapter lookups of sim_networks/win32_utilities.c: `compare_guid`, which compares the
 * brace-enclosed GUIDs inside two adapter names; `pcap_mac_if_win32`, which finds an
 * adapter by GUID and copies its MAC address; and `adapterByIndex`.
 *
 * The adapter list that `windowsNetworkAdapterList` obtains from `GetAdaptersAddresses`
 * is an input: the sequence of the list's records in `Next` order (empty when the list
 * could not be obtained).
 */
module Win32Utilities {
  import opened Wrappers

  /** MAX_ADAPTER_ADDRESS_LENGTH of the Windows IP helper API. */
  const MAX_ADAPTER_ADDRESS_LENGTH: nat := 8

  type PhysicalAddress = a: seq<bv8> | |a| == MAX_ADAPTER_ADDRESS_LENGTH witness [0, 0, 0, 0, 0, 0, 0, 0]

  /** The fields of an `IP_ADAPTER_ADDRESSES` record that the simulator reads. */
  datatype Adapter = Adapter(
    ifIndex: int,
    ipv6IfIndex: int,
    adapterName: CString,
    friendlyName: CString,
    description: CString,
    physicalAddress: PhysicalAddress,
    physicalAddressLength: nat)

  // ---------------------------------------------------------------------------
  // GUIDs inside adapter names

  /** The text after the first '{' of a name (where `strchr(name, '{') + 1` points), if any. */
  function AfterBrace(name: CString): (t: Option<CString>)
    ensures t.None? <==> '{' !in name
    ensures t.Some? ==> |t.value| < |name| && t.value == name[|name| - |t.value|..]
  {
    match IndexFrom(name, 0, '{')
    case None => None
    case Some(a) => Some(name[a + 1..])
  }

  /** The GUID text at the start of `p`: everything before its first '}', or None when unclosed. */
  function Guid(p: CString): (g: Option<string>)
    ensures g.Some? ==> '}' !in g.value && |g.value| < |p| && p[|g.value|] == '}'
    ensures g.None? <==> '}' !in p
  {
    match IndexFrom(p, 0, '}')
    case None => None
    case Some(m) => Some(p[..m])
  }

  /** The GUID of an adapter name: the text between its first '{' and the next '}'. */
  function GuidText(name: CString): Option<string>
  {
    match AfterBrace(name)
    case None => None
    case Some(p) => Guid(p)
  }

  /** Two names carry the same GUID, and it is properly closed. */
  predicate GuidsMatch(a: CString, b: CString)
  {
    GuidText(a).Some? && GuidText(a) == GuidText(b)
  }

  /** `k` is the first offset at which the two GUID texts differ before either reaches '}'. */
  predicate DiffersAt(p: CString, q: CString, k: nat)
  {
    k < |p| && k < |q| && p[..k] == q[..k] && '}' !in p[..k] && p[k] != q[k] && p[k] != '}' && q[k] != '}'
  }

  /** Equal prefixes agree at every offset inside them. */
  lemma PrefixAgrees(p: CString, q: CString, n: nat)
    requires n <= |p| && n <= |q| && p[..n] == q[..n]
    ensures forall j :: 0 <= j < n ==> p[j] == q[j]
  {
    forall j | 0 <= j < n
      ensures p[j] == q[j]
    {
      assert p[j] == p[..n][j];
    }
  }

  lemma DiffersAtUnique(p: CString, q: CString, k: nat, k': nat)
    requires DiffersAt(p, q, k) && DiffersAt(p, q, k')
    ensures k == k'
  {
    PrefixAgrees(p, q, k);
    PrefixAgrees(p, q, k');
  }

  /** Where the comparison loop stops, no offset is a first difference. */
  lemma NoDifferenceAfterStop(p: CString, q: CString, k: nat)
    requires k <= |p| && k <= |q| && p[..k] == q[..k] && '}' !in p[..k]
    requires k == |p| || k == |q| || p[k] == '}' || q[k] == '}'
    ensures forall k': nat :: !DiffersAt(p, q, k')
  {
    PrefixAgrees(p, q, k);
    forall k': nat | k < k' < |p| && k' < |q| && p[..k'] == q[..k']
      ensures '}' in p[..k']
    {
      PrefixAgrees(p, q, k');
      assert p[..k'][k] == p[k];
    }
  }

  /** With equal prefixes free of '}', both GUIDs close at `k` exactly when they are equal and closed. */
  lemma GuidAtStop(p: CString, q: CString, k: nat)
    requires k <= |p| && k <= |q| && p[..k] == q[..k] && '}' !in p[..k]
    requires k == |p| || k == |q| || p[k] == '}' || q[k] == '}'
    ensures (At(p, k) == '}' && At(q, k) == '}') <==> (Guid(p).Some? && Guid(p) == Guid(q))
  {
    PrefixAgrees(p, q, k);
    assert forall j :: 0 <= j < k ==> p[j] == p[..k][j];
    if At(p, k) == '}' && At(q, k) == '}' {
      assert IndexFrom(p, 0, '}') == Some(k);
      assert IndexFrom(q, 0, '}') == Some(k);
    }
    if Guid(p).Some? && Guid(p) == Guid(q) {
      var m := |Guid(p).value|;
      assert p[..m] == q[..m] == Guid(p).value;
      PrefixAgrees(p, q, m);
      assert forall j :: 0 <= j < m ==> p[j] == p[..m][j];
    }
  }

  /** At a first difference the two GUIDs cannot be equal and closed. */
  lemma GuidDiffers(p: CString, q: CString, k: nat)
    requires DiffersAt(p, q, k)
    ensures !(Guid(p).Some? && Guid(p) == Guid(q))
  {
    assert forall j :: 0 <= j < k ==> p[j] == p[..k][j];
    if Guid(p).Some? && Guid(p) == Guid(q) {
      var m := |Guid(p).value|;
      assert p[..m] == q[..m];
      PrefixAgrees(p, q, m);
    }
  }

  /**
   * `compare_guid`: -1 when the pcap name has no '{', 1 when the interface name has none;
   * otherwise the character difference `*ic - *pc` at the first differing offset before
   * either GUID reaches NUL or '}', and else 0 when both reach '}' together and 1 when not.
   */
  method CompareGuid(pcapName: CString, ifName: CString) returns (r: int)
    ensures AfterBrace(pcapName).None? ==> r == -1
    ensures AfterBrace(pcapName).Some? && AfterBrace(ifName).None? ==> r == 1
    ensures r == 0 <==> GuidsMatch(pcapName, ifName)
    ensures AfterBrace(pcapName).Some? && AfterBrace(ifName).Some? ==>
              forall k: nat :: DiffersAt(AfterBrace(pcapName).value, AfterBrace(ifName).value, k) ==>
                r == AfterBrace(ifName).value[k] as int - AfterBrace(pcapName).value[k] as int
    ensures AfterBrace(pcapName).Some? && AfterBrace(ifName).Some? &&
            (forall k: nat :: !DiffersAt(AfterBrace(pcapName).value, AfterBrace(ifName).value, k))
            ==> r == 0 || r == 1
  {
    var lp := IndexFrom(pcapName, 0, '{');
    if lp.None? {
      return -1;
    }
    var p := pcapName[lp.value + 1..];
    var li := IndexFrom(ifName, 0, '{');
    if li.None? {
      return 1;
    }
    var q := ifName[li.value + 1..];
    assert AfterBrace(pcapName) == Some(p) && AfterBrace(ifName) == Some(q);
    var k := 0;
    while At(p, k) != '\0' && At(q, k) != '\0' && At(p, k) != '}' && At(q, k) != '}'
      invariant k <= |p| && k <= |q| && p[..k] == q[..k] && '}' !in p[..k]
      decreases |p| - k
    {
      if p[k] != q[k] {
        assert DiffersAt(p, q, k);
        GuidDiffers(p, q, k);
        forall k': nat | DiffersAt(p, q, k')
          ensures k' == k
        {
          DiffersAtUnique(p, q, k, k');
        }
        return q[k] as int - p[k] as int;
      }
      assert p[..k + 1] == p[..k] + [p[k]];
      assert q[..k + 1] == q[..k] + [q[k]];
      k := k + 1;
    }
    NoDifferenceAfterStop(p, q, k);
    GuidAtStop(p, q, k);
    r := if At(p, k) != At(q, k) || At(p, k) != '}' then 1 else 0;
  }

  /** Characters before the first '{' of a name play no part in its GUID. */
  lemma {:induction false} GuidIgnoresPrefix(x: CString, name: CString)
    requires '{' !in x
    ensures GuidText(x + name) == GuidText(name)
  {
    IndexFromShift(x, name, 0, '{');
    match IndexFrom(name, 0, '{')
    case None =>
      assert AfterBrace(x + name) == None == AfterBrace(name);
    case Some(a) =>
      assert (x + name)[|x| + a + 1..] == name[a + 1..];
      assert AfterBrace(x + name) == AfterBrace(name);
  }

  /** Searching past a prefix free of `c` finds the match of the rest, shifted by the prefix. */
  lemma {:induction false} IndexFromShift(x: seq<char>, s: seq<char>, from: nat, c: char)
    requires from <= |x| && c !in x[from..]
    ensures IndexFrom(x + s, from, c) == match IndexFrom(s, 0, c) { case None => None case Some(i) => Some(|x| + i) }
    decreases |x| - from
  {
    if from < |x| {
      assert x[from] in x[from..];
      assert x[from + 1..] == x[from..][1..];
      IndexFromShift(x, s, from + 1, c);
    } else {
      IndexFromTail(x, s, 0, c);
    }
  }

  lemma {:induction false} IndexFromTail(x: seq<char>, s: seq<char>, from: nat, c: char)
    ensures IndexFrom(x + s, |x| + from, c) == match IndexFrom(s, from, c) { case None => None case Some(i) => Some(|x| + i) }
    decreases |s| - from
  {
    if from < |s| {
      assert (x + s)[|x| + from] == s[from];
      if s[from] != c {
        IndexFromTail(x, s, from + 1, c);
      }
    }
  }

  // ---------------------------------------------------------------------------
  // Adapter searches

  /** For each adapter of the list, whether its GUID matches `name`'s. */
  function GuidMatches(name: CString, adapters: seq<Adapter>): (ms: seq<bool>)
    ensures |ms| == |adapters|
  {
    seq(|adapters|, j requires 0 <= j < |adapters| => GuidsMatch(name, adapters[j].adapterName))
  }

  /**
   * `pcap_mac_if_win32`: the search stops at the first adapter whose GUID matches; it copies
   * that adapter's 6-byte address and returns 0 only when its address length is 6, and
   * returns -1 (leaving `macAddress` as it was) otherwise.
   */
  method PcapMacIfWin32(adapterName: CString, adapters: seq<Adapter>, macAddress: array<bv8>) returns (r: int)
    requires macAddress.Length == 6
    modifies macAddress
    ensures r == 0 || r == -1
    ensures var m := FirstTrue(GuidMatches(adapterName, adapters), 0);
            r == 0 <==> m.Some? && adapters[m.value].physicalAddressLength == 6
    ensures var m := FirstTrue(GuidMatches(adapterName, adapters), 0);
            r == 0 ==> m.Some? && macAddress[..] == adapters[m.value].physicalAddress[..6]
    ensures r == -1 ==> macAddress[..] == old(macAddress[..])
  {
    ghost var ms := GuidMatches(adapterName, adapters);
    var i := 0;
    while i < |adapters|
      invariant 0 <= i <= |adapters|
      invariant FirstTrue(ms, 0) == FirstTrue(ms, i)
      invariant macAddress[..] == old(macAddress[..])
    {
      var c := CompareGuid(adapterName, adapters[i].adapterName);
      assert ms[i] == (c == 0);
      if c == 0 {
        // The GUID matched: an adapter without a 6-byte address ends the search too.
        if adapters[i].physicalAddressLength == 6 {
          CopyAddress(macAddress, adapters[i].physicalAddress);
          return 0;
        }
        return -1;
      }
      i := i + 1;
    }
    return -1;
  }

  /** `memcpy(MACAddress, adapter->PhysicalAddress, 6)`. */
  method CopyAddress(macAddress: array<bv8>, address: PhysicalAddress)
    requires macAddress.Length == 6
    modifies macAddress
    ensures macAddress[..] == address[..6]
  {
    forall k | 0 <= k < 6 {
      macAddress[k] := address[k];
    }
  }

  /** `adapterByIndex`: the first adapter whose IfIndex equals `index`, or NULL. */
  method AdapterByIndex(adapters: seq<Adapter>, index: int) returns (r: Option<nat>)
    ensures r.Some? ==> r.value < |adapters| && adapters[r.value].ifIndex == index
    ensures r.Some? ==> forall j :: 0 <= j < r.value ==> adapters[j].ifIndex != index
    ensures r.None? ==> forall j :: 0 <= j < |adapters| ==> adapters[j].ifIndex != index
  {
    var i := 0;
    while i < |adapters|
      invariant 0 <= i <= |adapters|
      invariant forall j :: 0 <= j < i ==> adapters[j].ifIndex != index
    {
      if adapters[i].ifIndex == index {
        return Some(i);
      }
      i := i + 1;
    }
    return None;
  }
}
