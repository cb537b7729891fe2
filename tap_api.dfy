/**
 * The packet functions of the OpenVPN TAP back end (sim_networks/openvpn/apifuncs.c): the
 * reader and the writer over the overlapped-I/O state of an open TAP device, and the
 * rewriting of Ethernet address fields between the simulator's MAC address and the TAP
 * adapter's own.
 *
 * The Windows calls are oracles given as parameters: what `GetOverlappedResultEx` reports
 * for an outstanding read, what each `ReadFile` call reports, whether an outstanding write
 * completed, and what `WriteFile` reports. `sim_eth_callback` is modelled as appending the
 * delivered frame to the `delivered` log; a frame handed to `WriteFile` is appended to
 * `sent`.
 */
module TapApi {
  import opened Wrappers
  import opened VpnIntfs

  /** OPENVPN_MAX_READ: the size of the receive buffer. */
  const OPENVPN_MAX_READ: nat := 65536

  /** STATUS_PENDING, the status an overlapped request holds while it is in progress. */
  const STATUS_PENDING: nat := 0x103

  /** An Ethernet (ETH_MAC) address. */
  type MacAddress = m: seq<bv8> | |m| == 6 witness [0, 0, 0, 0, 0, 0]

  /** The `api_funcs` table of a device: only `openvpn_api_funcs` matters here. */
  datatype ApiFuncs = NoApiFuncs | OpenvpnApiFuncs

  /** What `GetOverlappedResultEx` reports for the outstanding read. */
  datatype WaitOutcome =
    | WaitDone(data: seq<bv8>)   // the read completed with these bytes
    | WaitTimeout                // WAIT_TIMEOUT
    | WaitFailed(status: nat)    // any other error; `status` is what the request's Internal
                                 // holds afterwards: the failed I/O's final status, or still
                                 // STATUS_PENDING when only the wait itself failed

  /** What the blocking `GetOverlappedResult` reports for the outstanding write. */
  datatype SendWait =
    | SendCompleted              // the write completed
    | SendWaitFailed(status: nat) // failure; `status` is what Internal holds afterwards

  /** What one `ReadFile` call reports. */
  datatype ReadOutcome =
    | ReadNow(data: seq<bv8>)    // TRUE: the read completed at once with these bytes
    | ReadPending                // FALSE with ERROR_IO_PENDING
    | ReadFailed                 // FALSE with any other error

  /** What one `WriteFile` call reports. */
  datatype WriteOutcome =
    | WriteDone                  // TRUE
    | WritePending               // FALSE with ERROR_IO_PENDING
    | WriteFailed(status: nat)   // FALSE with another error; the request's final status

  /** The device fields the packet functions read but never write. */
  datatype Settings = Settings(
    ethApi: EthApi,
    apiFuncs: ApiFuncs,
    tapDev: Option<nat>,
    physicalAddr: MacAddress,
    adapterMac: MacAddress)

  // ---------------------------------------------------------------------------
  // MAC-field rewriting

  /** One 6-byte address field after rewriting `from` to `to`. */
  function MapField(field: seq<bv8>, from: MacAddress, to: MacAddress): seq<bv8>
  {
    if field == from then to else field
  }

  /**
   * A frame after its destination (bytes 0-5) and source (bytes 6-11) address fields are
   * rewritten from `from` to `to`.
   */
  function Rewrite(frame: seq<bv8>, from: MacAddress, to: MacAddress): (r: seq<bv8>)
    requires |frame| >= 12
    ensures |r| == |frame|
  {
    MapField(frame[..6], from, to) + MapField(frame[6..12], from, to) + frame[12..]
  }

  /** What rewriting does to each part of a frame. */
  lemma RewriteParts(frame: seq<bv8>, from: MacAddress, to: MacAddress)
    requires |frame| >= 12
    ensures var r := Rewrite(frame, from, to);
      (frame[..6] == from ==> r[..6] == to) &&
      (frame[..6] != from ==> r[..6] == frame[..6]) &&
      (frame[6..12] == from ==> r[6..12] == to) &&
      (frame[6..12] != from ==> r[6..12] == frame[6..12]) &&
      r[12..] == frame[12..]
  {
    var r := Rewrite(frame, from, to);
    assert r[..6] == MapField(frame[..6], from, to);
    assert r[6..12] == MapField(frame[6..12], from, to);
  }

  /** A frame with neither address field equal to `from` is left as it is. */
  lemma RewriteNoMatch(frame: seq<bv8>, from: MacAddress, to: MacAddress)
    requires |frame| >= 12 && frame[..6] != from && frame[6..12] != from
    ensures Rewrite(frame, from, to) == frame
  {
    assert frame == frame[..6] + frame[6..12] + frame[12..];
  }

  /** After rewriting, no address field holds `from` any more (unless `from` is `to`). */
  lemma RewriteRemoves(frame: seq<bv8>, from: MacAddress, to: MacAddress)
    requires |frame| >= 12 && from != to
    ensures Rewrite(frame, from, to)[..6] != from && Rewrite(frame, from, to)[6..12] != from
  {
    RewriteParts(frame, from, to);
  }

  /**
   * Sending a frame and receiving the same bytes back is the same as receiving it: the send
   * side maps the simulator's MAC to the adapter's and the receive side maps it back.
   */
  lemma SendThenReceive(frame: seq<bv8>, sim: MacAddress, adapter: MacAddress)
    requires |frame| >= 12
    ensures Rewrite(Rewrite(frame, sim, adapter), adapter, sim) == Rewrite(frame, adapter, sim)
  {
    var s := Rewrite(frame, sim, adapter);
    assert s[..6] == MapField(frame[..6], sim, adapter);
    assert s[6..12] == MapField(frame[6..12], sim, adapter);
    assert s[12..] == frame[12..];
  }

  /**
   * The round trip: when neither address field of a frame holds the adapter's MAC, sending
   * it and receiving the same bytes gives the frame back unchanged.
   */
  lemma SendReceiveRoundTrip(frame: seq<bv8>, sim: MacAddress, adapter: MacAddress)
    requires |frame| >= 12 && frame[..6] != adapter && frame[6..12] != adapter
    ensures Rewrite(Rewrite(frame, sim, adapter), adapter, sim) == frame
  {
    SendThenReceive(frame, sim, adapter);
    RewriteNoMatch(frame, adapter, sim);
  }

  /** The two `memcmp`/`memcpy` pairs: rewrite the address fields of `buf` in place. */
  method RewriteMacs(buf: array<bv8>, from: MacAddress, to: MacAddress)
    requires buf.Length >= 12
    modifies buf
    ensures buf[..] == Rewrite(old(buf[..]), from, to)
  {
    ghost var frame := buf[..];
    if buf[..6] == from {
      forall k | 0 <= k < 6 {
        buf[k] := to[k];
      }
    }
    assert buf[..6] == MapField(frame[..6], from, to);
    assert buf[6..] == frame[6..];
    ghost var front := buf[..6];
    if buf[6..12] == from {
      forall k | 6 <= k < 12 {
        buf[k] := to[k - 6];
      }
    }
    assert buf[..6] == front;
    assert buf[6..12] == MapField(frame[6..12], from, to);
    assert buf[12..] == frame[12..];
    assert buf[..] == buf[..6] + buf[6..12] + buf[12..];
  }

  // ---------------------------------------------------------------------------
  // The receive buffer and synchronous reads

  /** A transfer that fits the receive buffer. */
  predicate Fits(data: seq<bv8>)
  {
    |data| <= OPENVPN_MAX_READ
  }

  /** Every transfer in `datas` fits the receive buffer. */
  predicate AllFit(datas: seq<seq<bv8>>)
  {
    forall k :: 0 <= k < |datas| ==> Fits(datas[k])
  }

  /** The receive buffer after a read writes `data` at its start. */
  function Landed(buf: seq<bv8>, data: seq<bv8>): (b: seq<bv8>)
    requires |buf| == OPENVPN_MAX_READ && Fits(data)
    ensures |b| == OPENVPN_MAX_READ && b[..|data|] == data && b[|data|..] == buf[|data|..]
  {
    data + buf[|data|..]
  }

  /** The receive buffer after a read of `data`, with its address fields rewritten or not. */
  function Received(buf: seq<bv8>, data: seq<bv8>, rewrite: bool, adapter: MacAddress, phys: MacAddress): (b: seq<bv8>)
    requires |buf| == OPENVPN_MAX_READ && Fits(data)
    ensures |b| == OPENVPN_MAX_READ
    ensures !rewrite ==> b[..|data|] == data
  {
    if rewrite then Rewrite(Landed(buf, data), adapter, phys) else Landed(buf, data)
  }

  /** The receive buffer after the reads `datas` completed one after another. */
  function SyncBuffer(buf: seq<bv8>, datas: seq<seq<bv8>>, rewrite: bool, adapter: MacAddress, phys: MacAddress): (b: seq<bv8>)
    requires |buf| == OPENVPN_MAX_READ && AllFit(datas)
    ensures |b| == OPENVPN_MAX_READ
    decreases |datas|
  {
    if datas == [] then buf
    else Received(SyncBuffer(buf, datas[..|datas| - 1], rewrite, adapter, phys), datas[|datas| - 1], rewrite, adapter, phys)
  }

  /** The frames handed to the simulator for the reads `datas`, one per read. */
  function SyncFrames(buf: seq<bv8>, datas: seq<seq<bv8>>, rewrite: bool, adapter: MacAddress, phys: MacAddress): (fs: seq<seq<bv8>>)
    requires |buf| == OPENVPN_MAX_READ && AllFit(datas)
    ensures |fs| == |datas|
    decreases |datas|
  {
    if datas == [] then []
    else SyncFrames(buf, datas[..|datas| - 1], rewrite, adapter, phys)
         + [SyncBuffer(buf, datas, rewrite, adapter, phys)[..|datas[|datas| - 1]|]]
  }

  /**
   * Without rewriting, the frames handed over for synchronous reads are exactly the bytes
   * those reads returned.
   */
  lemma {:induction false} SyncFramesPlain(buf: seq<bv8>, datas: seq<seq<bv8>>, adapter: MacAddress, phys: MacAddress)
    requires |buf| == OPENVPN_MAX_READ && AllFit(datas)
    ensures SyncFrames(buf, datas, false, adapter, phys) == datas
    decreases |datas|
  {
    if datas != [] {
      var init := datas[..|datas| - 1];
      SyncFramesPlain(buf, init, adapter, phys);
      assert datas == init + [datas[|datas| - 1]];
    }
  }

  /** Every transfer of a read that completed at once fits the receive buffer. */
  predicate ReadsFit(calls: seq<ReadOutcome>)
  {
    forall k :: 0 <= k < |calls| ==> calls[k].ReadNow? ==> Fits(calls[k].data)
  }

  /** Which `ReadFile` calls leave the queueing loop. */
  function Blocking(calls: seq<ReadOutcome>): (bs: seq<bool>)
    ensures |bs| == |calls|
  {
    seq(|calls|, k requires 0 <= k < |calls| => !calls[k].ReadNow?)
  }

  /** The bytes of those of the first `n` reads that completed at once. */
  function NowData(calls: seq<ReadOutcome>, n: nat): (datas: seq<seq<bv8>>)
    requires n <= |calls| && ReadsFit(calls)
    ensures |datas| == n && AllFit(datas)
  {
    seq(n, k requires 0 <= k < n => if calls[k].ReadNow? then calls[k].data else [])
  }

  /** Fill `buf` from the start with the bytes of one completed read. */
  method Land(buf: array<bv8>, data: seq<bv8>)
    requires buf.Length == OPENVPN_MAX_READ && Fits(data)
    modifies buf
    ensures buf[..] == Landed(old(buf[..]), data)
  {
    forall k | 0 <= k < |data| {
      buf[k] := data[k];
    }
    assert buf[..] == data + old(buf[..])[|data|..];
  }

  // ---------------------------------------------------------------------------
  // The device

  /** An ETH_DEV opened on the OpenVPN TAP back end, with its `tap_state`. */
  class EthDev {
    var ethApi: EthApi
    var apiFuncs: ApiFuncs
    /** The simulated adapter's MAC address (`physical_addr`). */
    var physicalAddr: MacAddress
    /** The TAP device handle (None: INVALID_HANDLE_VALUE). */
    var tapDev: Option<nat>
    /** The TAP adapter's own MAC address. */
    var adapterMac: MacAddress
    /** `send_overlapped.Internal`: the status of the last write. */
    var sendInternal: nat
    /** `recv_overlapped.Internal` and `.InternalHigh`: status and byte count of the last read. */
    var recvInternal: nat
    var recvInternalHigh: nat
    const recvBuffer: array<bv8>
    /** The frames handed to `sim_eth_callback`, in order. */
    var delivered: seq<seq<bv8>>
    /** The frames handed to `WriteFile`, in order. */
    var sent: seq<seq<bv8>>

    ghost predicate Valid()
      reads this
    {
      recvBuffer.Length == OPENVPN_MAX_READ && recvInternalHigh <= OPENVPN_MAX_READ
    }

    function Config(): Settings
      reads this
    {
      Settings(ethApi, apiFuncs, tapDev, physicalAddr, adapterMac)
    }

    /** The receive side is as given. */
    ghost predicate RecvIs(internal: nat, high: nat, buf: seq<bv8>, frames: seq<seq<bv8>>)
      reads this, recvBuffer
    {
      recvInternal == internal && recvInternalHigh == high && recvBuffer[..] == buf && delivered == frames
    }

    /** A closed device with the simulator's MAC address and idle, zeroed I/O state. */
    constructor (physicalAddr: MacAddress)
      ensures Valid() && fresh(recvBuffer)
      ensures Config() == Settings(EthApiOther(0), NoApiFuncs, None, physicalAddr, [0, 0, 0, 0, 0, 0])
      ensures sendInternal == 0 && recvInternal == 0 && recvInternalHigh == 0
      ensures delivered == [] && sent == []
    {
      ethApi := EthApiOther(0);
      apiFuncs := NoApiFuncs;
      this.physicalAddr := physicalAddr;
      tapDev := None;
      adapterMac := [0, 0, 0, 0, 0, 0];
      sendInternal, recvInternal, recvInternalHigh := 0, 0, 0;
      recvBuffer := new bv8[OPENVPN_MAX_READ](_ => 0);
      delivered, sent := [], [];
    }

    /**
     * The operating system completes the outstanding read with `data`: the bytes land in
     * the buffer and the request's status becomes success with that byte count.
     */
    method CompleteRead(data: seq<bv8>)
      requires Valid() && recvInternal == STATUS_PENDING && Fits(data)
      modifies this, recvBuffer
      ensures Valid() && Config() == old(Config())
      ensures sendInternal == old(sendInternal) && sent == old(sent) && delivered == old(delivered)
      ensures recvInternal == 0 && recvInternalHigh == |data|
      ensures recvBuffer[..] == Landed(old(recvBuffer[..]), data)
    {
      Land(recvBuffer, data);
      recvInternal, recvInternalHigh := 0, |data|;
    }

    /**
     * Hand the completed read to the simulator: rewrite the adapter's MAC to the
     * simulator's in the buffer and deliver its first `recvInternalHigh` bytes. With
     * `consume` the byte count is cleared, so the frame is delivered once.
     */
    method Deliver(consume: bool)
      requires Valid() && recvInternal == 0 && recvInternalHigh > 0
      modifies this, recvBuffer
      ensures Valid() && Config() == old(Config())
      ensures sendInternal == old(sendInternal) && sent == old(sent)
      ensures recvInternal == 0 && recvInternalHigh == (if consume then 0 else old(recvInternalHigh))
      ensures recvBuffer[..] == Rewrite(old(recvBuffer[..]), adapterMac, physicalAddr)
      ensures delivered == old(delivered) + [recvBuffer[..old(recvInternalHigh)]]
    {
      RewriteMacs(recvBuffer, adapterMac, physicalAddr);
      delivered := delivered + [recvBuffer[..recvInternalHigh]];
      if consume {
        recvInternalHigh := 0;
      }
    }

    /**
     * The state after the queueing loop ran over `reads` from a buffer `buf0` and a log
     * `frames0`: the reads up to the first that did not complete at once were delivered,
     * and that one decides the status and the result.
     */
    ghost predicate Queued(buf0: seq<bv8>, frames0: seq<seq<bv8>>, calls: seq<ReadOutcome>, rewrite: bool, r: int)
      requires |buf0| == OPENVPN_MAX_READ && ReadsFit(calls) && FirstTrue(Blocking(calls), 0).Some?
      reads this, recvBuffer
    {
      QueuedAt(buf0, frames0, calls, FirstTrue(Blocking(calls), 0).value, rewrite, r)
    }

    /** `Queued`, for the loop leaving at the read with index `n`. */
    ghost predicate QueuedAt(buf0: seq<bv8>, frames0: seq<seq<bv8>>, calls: seq<ReadOutcome>, n: nat, rewrite: bool, r: int)
      requires |buf0| == OPENVPN_MAX_READ && ReadsFit(calls) && n < |calls|
      reads this, recvBuffer
    {
      var datas := NowData(calls, n);
      recvBuffer[..] == SyncBuffer(buf0, datas, rewrite, adapterMac, physicalAddr) &&
      delivered == frames0 + SyncFrames(buf0, datas, rewrite, adapterMac, physicalAddr) &&
      recvInternal == (if calls[n].ReadPending? then STATUS_PENDING else 0) &&
      recvInternalHigh == 0 &&
      r == (if calls[n].ReadPending? then 0 else -1)
    }

    /**
     * The loop that queues the next read: each read that completes at once is delivered
     * (its address fields rewritten only with `rewrite`) and another is issued; a pending
     * read returns 0 and a failed one -1.
     */
    method QueueRead(calls: seq<ReadOutcome>, rewrite: bool) returns (r: int)
      requires Valid() && ReadsFit(calls) && FirstTrue(Blocking(calls), 0).Some?
      modifies this, recvBuffer
      ensures Valid() && Config() == old(Config())
      ensures sendInternal == old(sendInternal) && sent == old(sent)
      ensures QueuedAt(old(recvBuffer[..]), old(delivered), calls, FirstTrue(Blocking(calls), 0).value, rewrite, r)
    {
      ghost var buf0 := recvBuffer[..];
      ghost var frames0 := delivered;
      ghost var n := FirstTrue(Blocking(calls), 0).value;
      FirstBlocking(calls);
      var i := 0;
      while calls[i].ReadNow?
        invariant Valid() && Config() == old(Config())
        invariant sendInternal == old(sendInternal) && sent == old(sent)
        invariant i <= n
        invariant recvBuffer[..] == SyncBuffer(buf0, NowData(calls, i), rewrite, adapterMac, physicalAddr)
        invariant delivered == frames0 + SyncFrames(buf0, NowData(calls, i), rewrite, adapterMac, physicalAddr)
        decreases n - i
      {
        ReadNowStep(calls, i, buf0, rewrite, adapterMac, physicalAddr);
        ReadAndDeliver(calls[i].data, rewrite);
        i := i + 1;
      }
      assert i == n;
      r := EndQueue(calls[i].ReadPending?);
    }

    /**
     * Leave the queueing loop: each round cleared the status before calling `ReadFile`, and
     * a pending read then holds STATUS_PENDING; the result is 0 for a pending read and -1
     * for a failed one.
     */
    method EndQueue(pending: bool) returns (r: int)
      requires Valid()
      modifies this
      ensures Valid() && Config() == old(Config())
      ensures sendInternal == old(sendInternal) && sent == old(sent)
      ensures recvBuffer[..] == old(recvBuffer[..]) && delivered == old(delivered)
      ensures recvInternal == (if pending then STATUS_PENDING else 0) && recvInternalHigh == 0
      ensures r == (if pending then 0 else -1)
    {
      recvInternal, recvInternalHigh := 0, 0;
      if pending {
        recvInternal := STATUS_PENDING;
        r := 0;
      } else {
        r := -1;
      }
    }

    /** One read that completed at once, handed over with or without rewriting. */
    method ReadAndDeliver(data: seq<bv8>, rewrite: bool)
      requires Valid() && Fits(data)
      modifies this, recvBuffer
      ensures Valid() && Config() == old(Config())
      ensures sendInternal == old(sendInternal) && sent == old(sent)
      ensures recvInternal == old(recvInternal) && recvInternalHigh == old(recvInternalHigh)
      ensures recvBuffer[..] == Received(old(recvBuffer[..]), data, rewrite, adapterMac, physicalAddr)
      ensures delivered == old(delivered) + [recvBuffer[..|data|]]
    {
      Land(recvBuffer, data);
      if rewrite {
        RewriteMacs(recvBuffer, adapterMac, physicalAddr);
      }
      delivered := delivered + [recvBuffer[..|data|]];
    }

    /**
     * `openvpn_reader` as written. A pending read that times out returns 0 and one whose
     * wait fails returns -1, the request keeping the status the failure left; an error status returns -1; a completed read with data is
     * rewritten and delivered and returns 1, but its byte count is never cleared; a pending
     * read that the wait completes is not delivered, since control falls through to queue
     * the next read over it; reads that complete at once are delivered without rewriting.
     */
    method ReaderAsWritten(wait: WaitOutcome, calls: seq<ReadOutcome>) returns (r: int)
      requires Valid() && (wait.WaitDone? ==> Fits(wait.data))
      requires ReadsFit(calls) && FirstTrue(Blocking(calls), 0).Some?
      modifies this, recvBuffer
      ensures Valid() && Config() == old(Config())
      ensures sendInternal == old(sendInternal) && sent == old(sent)
      ensures old(recvInternal) == STATUS_PENDING && wait.WaitTimeout? ==>
        r == 0 && RecvIs(old(recvInternal), old(recvInternalHigh), old(recvBuffer[..]), old(delivered))
      ensures old(recvInternal) == STATUS_PENDING && wait.WaitFailed? ==>
        r == -1 && RecvIs(wait.status, old(recvInternalHigh), old(recvBuffer[..]), old(delivered))
      ensures old(recvInternal) != STATUS_PENDING && old(recvInternal) != 0 ==>
        r == -1 && RecvIs(old(recvInternal), old(recvInternalHigh), old(recvBuffer[..]), old(delivered))
      ensures old(recvInternal) == 0 && old(recvInternalHigh) > 0 ==>
        r == 1 && recvInternal == 0 && recvInternalHigh == old(recvInternalHigh) &&
        recvBuffer[..] == Rewrite(old(recvBuffer[..]), adapterMac, physicalAddr) &&
        delivered == old(delivered) + [recvBuffer[..old(recvInternalHigh)]]
      ensures old(recvInternal) == STATUS_PENDING && wait.WaitDone? ==>
        Queued(Landed(old(recvBuffer[..]), wait.data), old(delivered), calls, false, r)
      ensures old(recvInternal) == 0 && old(recvInternalHigh) == 0 ==>
        Queued(old(recvBuffer[..]), old(delivered), calls, false, r)
    {
      if recvInternal == STATUS_PENDING {
        match wait
        case WaitTimeout =>
          return 0;
        case WaitFailed(status) =>
          recvInternal := status;
          return -1;
        case WaitDone(data) =>
          CompleteRead(data);
      } else if recvInternal != 0 {
        return -1;
      } else if recvInternalHigh > 0 {
        Deliver(false);
        return 1;
      }
      r := QueueRead(calls, false);
    }

    /**
     * `openvpn_reader` as evidently intended: a read the wait completes is delivered like
     * one that had already completed, a delivered read is consumed, and reads that complete
     * at once are rewritten like the others.
     */
    method Reader(wait: WaitOutcome, calls: seq<ReadOutcome>) returns (r: int)
      requires Valid() && (wait.WaitDone? ==> Fits(wait.data))
      requires ReadsFit(calls) && FirstTrue(Blocking(calls), 0).Some?
      modifies this, recvBuffer
      ensures Valid() && Config() == old(Config())
      ensures sendInternal == old(sendInternal) && sent == old(sent)
      ensures old(recvInternal) == STATUS_PENDING && wait.WaitTimeout? ==>
        r == 0 && RecvIs(old(recvInternal), old(recvInternalHigh), old(recvBuffer[..]), old(delivered))
      ensures old(recvInternal) == STATUS_PENDING && wait.WaitFailed? ==>
        r == -1 && RecvIs(wait.status, old(recvInternalHigh), old(recvBuffer[..]), old(delivered))
      ensures old(recvInternal) != STATUS_PENDING && old(recvInternal) != 0 ==>
        r == -1 && RecvIs(old(recvInternal), old(recvInternalHigh), old(recvBuffer[..]), old(delivered))
      ensures var done := old(recvInternal) == STATUS_PENDING && wait.WaitDone?;
        var buf1 := if done then Landed(old(recvBuffer[..]), wait.data) else old(recvBuffer[..]);
        var high := if done then |wait.data| else old(recvInternalHigh);
        (done || old(recvInternal) == 0) && high > 0 ==>
          r == 1 && recvInternal == 0 && recvInternalHigh == 0 &&
          recvBuffer[..] == Rewrite(buf1, adapterMac, physicalAddr) &&
          delivered == old(delivered) + [recvBuffer[..high]]
      ensures var done := old(recvInternal) == STATUS_PENDING && wait.WaitDone?;
        var buf1 := if done then Landed(old(recvBuffer[..]), wait.data) else old(recvBuffer[..]);
        var high := if done then |wait.data| else old(recvInternalHigh);
        (done || old(recvInternal) == 0) && high == 0 ==>
          Queued(buf1, old(delivered), calls, true, r)
    {
      if recvInternal == STATUS_PENDING {
        match wait
        case WaitTimeout =>
          return 0;
        case WaitFailed(status) =>
          recvInternal := status;
          return -1;
        case WaitDone(data) =>
          CompleteRead(data);
      } else if recvInternal != 0 {
        return -1;
      }
      if recvInternalHigh > 0 {
        Deliver(true);
        return 1;
      }
      r := QueueRead(calls, true);
    }

    /**
     * `openvpn_writer`. An outstanding write whose wait fails (the request keeping the
     * status the failure left), or an earlier write that ended in error, returns -1 and
     * sends nothing. Otherwise the simulator's MAC is
     * rewritten to the adapter's in the packet, the first `len` bytes are handed to
     * `WriteFile`, and the result is 0 unless that call fails outright.
     */
    method Writer(wait: SendWait, packet: array<bv8>, len: nat, write: WriteOutcome) returns (r: int)
      requires Valid() && packet.Length >= 12 && len <= packet.Length
      modifies this, packet
      ensures Valid() && Config() == old(Config())
      ensures recvInternal == old(recvInternal) && recvInternalHigh == old(recvInternalHigh)
      ensures delivered == old(delivered)
      ensures old(sendInternal) == STATUS_PENDING && wait.SendWaitFailed? ==>
        r == -1 && sendInternal == wait.status && sent == old(sent) && packet[..] == old(packet[..])
      ensures old(sendInternal) != STATUS_PENDING && old(sendInternal) != 0 ==>
        r == -1 && sendInternal == old(sendInternal) && sent == old(sent) && packet[..] == old(packet[..])
      ensures (old(sendInternal) == STATUS_PENDING && wait.SendCompleted?) || old(sendInternal) == 0 ==>
        packet[..] == Rewrite(old(packet[..]), physicalAddr, adapterMac) &&
        r == (if write.WriteFailed? then -1 else 0) &&
        sent == old(sent) + (if write.WriteFailed? then [] else [packet[..len]]) &&
        sendInternal == (match write
                         case WriteDone => 0
                         case WritePending => STATUS_PENDING
                         case WriteFailed(status) => status)
    {
      if sendInternal == STATUS_PENDING {
        match wait
        case SendWaitFailed(status) =>
          sendInternal := status;
          return -1;
        case SendCompleted =>
          sendInternal := 0;
      } else if sendInternal != 0 {
        return -1;
      }
      RewriteMacs(packet, physicalAddr, adapterMac);
      match write
      case WriteDone =>
        sent := sent + [packet[..len]];
        sendInternal := 0;
        r := 0;
      case WritePending =>
        sent := sent + [packet[..len]];
        sendInternal := STATUS_PENDING;
        r := 0;
      case WriteFailed(status) =>
        sendInternal := status;
        r := -1;
    }
  }

  /** The queueing loop leaves at the first call that did not complete at once. */
  lemma FirstBlocking(calls: seq<ReadOutcome>)
    requires FirstTrue(Blocking(calls), 0).Some?
    ensures var n := FirstTrue(Blocking(calls), 0).value;
      n < |calls| && !calls[n].ReadNow? && forall k :: 0 <= k < n ==> calls[k].ReadNow?
  {
    var bs := Blocking(calls);
    var n := FirstTrue(bs, 0).value;
    forall k | 0 <= k < n
      ensures calls[k].ReadNow?
    {
      assert !bs[k];
    }
    assert bs[n];
  }

  /** One round of the queueing loop over a read that completed at once. */
  lemma ReadNowStep(calls: seq<ReadOutcome>, i: nat, buf0: seq<bv8>, rewrite: bool, adapter: MacAddress, phys: MacAddress)
    requires i < |calls| && calls[i].ReadNow? && ReadsFit(calls) && |buf0| == OPENVPN_MAX_READ
    ensures NowData(calls, i + 1)[..i] == NowData(calls, i)
    ensures SyncBuffer(buf0, NowData(calls, i + 1), rewrite, adapter, phys)
         == Received(SyncBuffer(buf0, NowData(calls, i), rewrite, adapter, phys), calls[i].data, rewrite, adapter, phys)
    ensures SyncFrames(buf0, NowData(calls, i + 1), rewrite, adapter, phys)
         == SyncFrames(buf0, NowData(calls, i), rewrite, adapter, phys)
            + [SyncBuffer(buf0, NowData(calls, i + 1), rewrite, adapter, phys)[..|calls[i].data|]]
  {
    assert NowData(calls, i + 1)[..i] == NowData(calls, i);
  }

  // ---------------------------------------------------------------------------
  // Scenarios showing where the reader as written departs from its evident intent

  /** The simulator's MAC address and the TAP adapter's, for the scenarios below. */
  const SIM_MAC: MacAddress := [0x08, 0x00, 0x2B, 0x01, 0x02, 0x03]
  const TAP_MAC: MacAddress := [0x00, 0xFF, 0x10, 0x20, 0x30, 0x40]

  /** A 60-byte frame whose address fields hold neither MAC address. */
  function Plain(): (f: seq<bv8>)
    ensures |f| == 60 && f[..6] != TAP_MAC && f[6..12] != TAP_MAC
  {
    var f := seq(60, _ => 0x55 as bv8);
    assert f[0] != TAP_MAC[0];
    assert f[6] != TAP_MAC[0];
    f
  }

  /** A 60-byte frame addressed to the TAP adapter, from a third station. */
  function ToAdapter(): (f: seq<bv8>)
    ensures |f| == 60 && f[..6] == TAP_MAC && f[6..12] != TAP_MAC
  {
    var f := TAP_MAC + seq(54, _ => 0x55 as bv8);
    assert f[6] != TAP_MAC[0];
    f
  }

  /** A device with the scenario's addresses, its next read already pending. */
  method PendingDevice() returns (d: EthDev)
    ensures fresh(d) && fresh(d.recvBuffer) && d.Valid()
    ensures d.physicalAddr == SIM_MAC && d.adapterMac == TAP_MAC
    ensures d.recvInternal == STATUS_PENDING && d.recvInternalHigh == 0 && d.delivered == []
  {
    d := new EthDev(SIM_MAC);
    d.adapterMac := TAP_MAC;
    d.recvInternal := STATUS_PENDING;
  }

  /**
   * A pending read that the wait completes is lost as written: the reader goes on to queue
   * the next read over it and delivers nothing, where the intended reader delivers it.
   */
  method CompletedWaitDropsFrame() returns (asWritten: seq<seq<bv8>>, corrected: seq<seq<bv8>>)
    ensures asWritten == [] && corrected == [Plain()]
  {
    var d1 := PendingDevice();
    var r1 := d1.ReaderAsWritten(WaitDone(Plain()), [ReadPending]);
    assert Blocking([ReadPending])[0];
    asWritten := d1.delivered;
    var d2 := PendingDevice();
    ghost var buf0 := d2.recvBuffer[..];
    var r2 := d2.Reader(WaitDone(Plain()), [ReadPending]);
    ghost var landed := Landed(buf0, Plain());
    assert landed[..60] == Plain();
    assert landed[..6] == Plain()[..6] && landed[6..12] == Plain()[6..12];
    RewriteNoMatch(landed, TAP_MAC, SIM_MAC);
    corrected := d2.delivered;
  }

  /**
   * A read whose wait fails with an I/O error keeps that error as its status, so the next
   * call reports the error at once instead of waiting again, and nothing is delivered.
   */
  method FailedWaitReported(status: nat) returns (first: int, second: int, frames: seq<seq<bv8>>)
    requires status != 0 && status != STATUS_PENDING
    ensures first == -1 && second == -1 && frames == []
  {
    var d := PendingDevice();
    first := d.Reader(WaitFailed(status), [ReadPending]);
    second := d.Reader(WaitDone(Plain()), [ReadPending]);
    frames := d.delivered;
  }

  /**
   * A completed read is handed over again on every later call as written, since its byte
   * count is never cleared.
   */
  method RedeliveredAsWritten() returns (frames: seq<seq<bv8>>)
    ensures frames == [Plain(), Plain()]
  {
    var d := PendingDevice();
    d.CompleteRead(Plain());
    ghost var landed := d.recvBuffer[..];
    assert landed[..6] == Plain()[..6] && landed[6..12] == Plain()[6..12];
    RewriteNoMatch(landed, TAP_MAC, SIM_MAC);
    var r1 := d.ReaderAsWritten(WaitTimeout, [ReadPending]);
    var r2 := d.ReaderAsWritten(WaitTimeout, [ReadPending]);
    frames := d.delivered;
  }

  /** The intended reader hands a completed read over once and then queues the next read. */
  method DeliveredOnce() returns (frames: seq<seq<bv8>>)
    ensures frames == [Plain()]
  {
    var d := PendingDevice();
    d.CompleteRead(Plain());
    ghost var landed := d.recvBuffer[..];
    assert landed[..6] == Plain()[..6] && landed[6..12] == Plain()[6..12];
    RewriteNoMatch(landed, TAP_MAC, SIM_MAC);
    var r1 := d.Reader(WaitTimeout, [ReadPending]);
    var r2 := d.Reader(WaitTimeout, [ReadPending]);
    assert Blocking([ReadPending])[0];
    frames := d.delivered;
  }

  /**
   * A read that completes at once is handed over with the adapter's MAC still in its
   * destination field as written.
   */
  method ImmediateAsWritten() returns (frames: seq<seq<bv8>>)
    ensures frames == [ToAdapter()]
  {
    var calls := [ReadNow(ToAdapter()), ReadPending];
    ImmediateCalls(calls);
    var d := PendingDevice();
    d.recvInternal := 0;
    ghost var buf := d.recvBuffer[..];
    var r := d.ReaderAsWritten(WaitTimeout, calls);
    SyncFramesOne(buf, ToAdapter(), false, TAP_MAC, SIM_MAC);
    frames := d.delivered;
  }

  /** The intended reader puts the simulator's MAC into that destination field. */
  method ImmediateRewritten() returns (frames: seq<seq<bv8>>)
    ensures frames == [SIM_MAC + ToAdapter()[6..]]
  {
    var calls := [ReadNow(ToAdapter()), ReadPending];
    ImmediateCalls(calls);
    var d := PendingDevice();
    d.recvInternal := 0;
    ghost var buf := d.recvBuffer[..];
    var r := d.Reader(WaitTimeout, calls);
    ImmediateRewrite(buf);
    frames := d.delivered;
  }

  /** A read that completes at once with `ToAdapter()`, then one that is left pending. */
  lemma ImmediateCalls(calls: seq<ReadOutcome>)
    requires calls == [ReadNow(ToAdapter()), ReadPending]
    ensures ReadsFit(calls) && FirstTrue(Blocking(calls), 0) == Some(1)
    ensures NowData(calls, 1) == [ToAdapter()]
  {
    assert !Blocking(calls)[0] && Blocking(calls)[1];
  }

  /** The frame the intended reader hands over for `ToAdapter()` read at once. */
  lemma ImmediateRewrite(buf: seq<bv8>)
    requires |buf| == OPENVPN_MAX_READ
    ensures SyncFrames(buf, [ToAdapter()], true, TAP_MAC, SIM_MAC) == [SIM_MAC + ToAdapter()[6..]]
  {
    var t := ToAdapter();
    SyncFramesOne(buf, t, true, TAP_MAC, SIM_MAC);
    LandedRewrite(buf, t, TAP_MAC, SIM_MAC);
    RewriteDestination(t, TAP_MAC, SIM_MAC);
  }

  /** A frame addressed to `from` and not sent from it gets `to` as its destination only. */
  lemma RewriteDestination(f: seq<bv8>, from: MacAddress, to: MacAddress)
    requires |f| >= 12 && f[..6] == from && f[6..12] != from
    ensures Rewrite(f, from, to) == to + f[6..]
  {
    assert f[6..] == f[6..12] + f[12..];
  }

  /** The frames handed over for a single read. */
  lemma SyncFramesOne(buf: seq<bv8>, f: seq<bv8>, rewrite: bool, adapter: MacAddress, phys: MacAddress)
    requires |buf| == OPENVPN_MAX_READ && Fits(f)
    ensures SyncFrames(buf, [f], rewrite, adapter, phys) == [Received(buf, f, rewrite, adapter, phys)[..|f|]]
  {
    assert [f][..0] == [];
    assert SyncBuffer(buf, [f], rewrite, adapter, phys) == Received(buf, f, rewrite, adapter, phys);
  }

  /** Rewriting a buffer a frame has landed in rewrites the frame. */
  lemma LandedRewrite(buf: seq<bv8>, f: seq<bv8>, from: MacAddress, to: MacAddress)
    requires |buf| == OPENVPN_MAX_READ && Fits(f) && |f| >= 12
    ensures Rewrite(Landed(buf, f), from, to)[..|f|] == Rewrite(f, from, to)
  {
    var l := Landed(buf, f);
    assert l[..6] == f[..6] && l[6..12] == f[6..12] && l[12..|f|] == f[12..];
  }
}
