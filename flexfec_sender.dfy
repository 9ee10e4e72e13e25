/**
 * The FlexFEC sender: wraps the payloads produced by the FEC engine into
 * outbound RTP packets on their own SSRC, with consecutive (wrapping)
 * sequence numbers and a 90 kHz timestamp, and reports its worst-case
 * per-packet overhead. The FEC engine, the clock and the random source are
 * inputs: the engine's generated payloads, the successive clock readings,
 * and the two random draws.
 */
module FlexfecSender {

  type Uint16 = x: int | 0 <= x < 0x1_0000
  type Uint32 = x: int | 0 <= x < 0x1_0000_0000
  type Payload = seq<bv8>

  /** The first sequence number lies in the lower half of the 16-bit space. */
  const kMaxInitRtpSeqNumber := 0x7fff
  /** Worst-case size of the FlexFEC header inside the RTP payload. */
  const kFlexfecMaxHeaderSize := 32
  const kVideoPayloadTypeFrequency := 90000
  /** Converts clock milliseconds to 90 kHz RTP timestamp ticks. */
  const kMsToRtpTimestamp := kVideoPayloadTypeFrequency / 1000
  const kPacketLogIntervalMs := 10000

  const kTransportSequenceNumberUri := "http://www.ietf.org/id/draft-holmer-rmcat-transport-wide-cc-extensions-01"
  const kAbsoluteSendTimeUri := "http://www.webrtc.org/experiments/rtp-hdrext/abs-send-time"
  const kTransmissionOffsetUri := "urn:ietf:params:rtp-hdrext:toffset"

  /** A requested RTP header extension: its URI and its local id. */
  datatype RtpExtension = RtpExtension(uri: string, id: int)

  /** The bandwidth-estimation extensions the sender honours. */
  datatype ExtensionType = TransportSequenceNumber | AbsoluteSendTime | TransmissionOffset

  function Uri(t: ExtensionType): string
  {
    match t
    case TransportSequenceNumber => kTransportSequenceNumberUri
    case AbsoluteSendTime => kAbsoluteSendTimeUri
    case TransmissionOffset => kTransmissionOffsetUri
  }

  /** `RtpHeaderExtensionMap`: the id registered for each extension type. */
  type HeaderExtensionMap = map<ExtensionType, int>

  /** One pass of the registration loop: a BWE URI registers its type, anything else is skipped. */
  function RegisterBwe(m: HeaderExtensionMap, extension: RtpExtension): HeaderExtensionMap
  {
    if extension.uri == kTransportSequenceNumberUri then m[TransportSequenceNumber := extension.id]
    else if extension.uri == kAbsoluteSendTimeUri then m[AbsoluteSendTime := extension.id]
    else if extension.uri == kTransmissionOffsetUri then m[TransmissionOffset := extension.id]
    else m
  }

  /** The map `RegisterBweExtensions` builds from `extensions`, in order. */
  function BweExtensionMap(extensions: seq<RtpExtension>): HeaderExtensionMap
  {
    if extensions == [] then map[]
    else RegisterBwe(BweExtensionMap(extensions[..|extensions| - 1]), extensions[|extensions| - 1])
  }

  /**
   * `RegisterBweExtensions`: register the transport-wide sequence number,
   * absolute send time and transmission offset extensions; skip (and log)
   * any other one.
   */
  method RegisterBweExtensions(extensions: seq<RtpExtension>) returns (m: HeaderExtensionMap)
    ensures m == BweExtensionMap(extensions)
  {
    m := map[];
    for k := 0 to |extensions|
      invariant m == BweExtensionMap(extensions[..k])
    {
      m := RegisterBwe(m, extensions[k]);
      assert extensions[..k + 1][..k] == extensions[..k];
    }
    assert extensions[..|extensions|] == extensions;
  }

  /** Exactly the BWE types that some extension asks for are registered. */
  lemma {:induction false} BweExtensionMapKeys(extensions: seq<RtpExtension>)
    ensures forall t :: t in BweExtensionMap(extensions) <==>
                        exists i :: 0 <= i < |extensions| && extensions[i].uri == Uri(t)
  {
    if extensions != [] {
      var init := extensions[..|extensions| - 1];
      BweExtensionMapKeys(init);
      forall t ensures (exists i :: 0 <= i < |init| && init[i].uri == Uri(t)) <==>
                       (exists i :: 0 <= i < |extensions| - 1 && extensions[i].uri == Uri(t))
      {
        assert forall i :: 0 <= i < |init| ==> init[i] == extensions[i];
      }
    }
  }

  /** A registered type carries the id of the last extension that asks for it. */
  lemma {:induction false} BweExtensionMapLastId(extensions: seq<RtpExtension>, t: ExtensionType)
    requires t in BweExtensionMap(extensions)
    ensures exists i :: 0 <= i < |extensions| && extensions[i].uri == Uri(t) &&
                        extensions[i].id == BweExtensionMap(extensions)[t] &&
                        forall j :: i < j < |extensions| ==> extensions[j].uri != Uri(t)
  {
    var n := |extensions|;
    var last := extensions[n - 1];
    if last.uri == Uri(t) {
      assert extensions[n - 1].id == BweExtensionMap(extensions)[t];
    } else {
      var init := extensions[..n - 1];
      BweExtensionMapLastId(init, t);
      var i :| 0 <= i < |init| && init[i].uri == Uri(t) && init[i].id == BweExtensionMap(init)[t] &&
               forall j :: i < j < |init| ==> init[j].uri != Uri(t);
      assert extensions[i] == init[i];
      assert forall j :: i < j < n ==> extensions[j].uri != Uri(t) by {
        forall j | i < j < n ensures extensions[j].uri != Uri(t) {
          if j < n - 1 { assert extensions[j] == init[j]; }
        }
      }
    }
  }

  /** An extension the sender does not support can be dropped without changing the map. */
  lemma {:induction false} BweExtensionMapSkipsOthers(before: seq<RtpExtension>, other: RtpExtension, after: seq<RtpExtension>)
    requires other.uri != Uri(TransportSequenceNumber) && other.uri != Uri(AbsoluteSendTime) &&
             other.uri != Uri(TransmissionOffset)
    ensures BweExtensionMap(before + [other] + after) == BweExtensionMap(before + after)
  {
    if after == [] {
      assert before + [other] + after == before + [other];
      assert (before + [other])[..|before|] == before;
      assert before + after == before;
    } else {
      var init := after[..|after| - 1];
      BweExtensionMapSkipsOthers(before, other, init);
      assert (before + [other] + after)[..|before + [other] + after| - 1] == before + [other] + init;
      assert (before + after)[..|before + after| - 1] == before + init;
    }
  }

  /** A packet as handed to the RTP sender (`RtpPacketToSend`). */
  datatype RtpPacketToSend = RtpPacketToSend(
    marker: bool,
    payloadType: int,
    sequenceNumber: Uint16,
    timestamp: Uint32,
    ssrc: Uint32,
    captureTimeMs: int,
    reservedExtensions: set<ExtensionType>,
    payload: Payload)

  /**
   * The FEC engine's state as the sender sees it: the FEC payloads generated
   * and not yet fetched. How they are computed is outside this model.
   */
  class FecGenerator {
    var generatedFecPackets: seq<Payload>
    ghost var resets: nat

    constructor ()
      ensures generatedFecPackets == [] && resets == 0
    {
      generatedFecPackets := [];
      resets := 0;
    }

    /** `UlpfecGenerator::FecAvailable`. */
    function FecAvailable(): bool
      reads this
    {
      generatedFecPackets != []
    }

    /** `UlpfecGenerator::ResetState`: drop the generated packets. */
    method ResetState()
      modifies this
      ensures generatedFecPackets == [] && resets == old(resets) + 1
    {
      generatedFecPackets := [];
      resets := resets + 1;
    }
  }

  /** Truncating a product to 32 bits before a wrapping add changes nothing. */
  lemma WrapAdd32(a: int, b: int)
    ensures (a + b % 0x1_0000_0000) % 0x1_0000_0000 == (a + b) % 0x1_0000_0000
  {
  }

  /**
   * Sequence numbers handed out from `start` stay consecutive modulo 2^16
   * across calls: after `n` packets, the next one carries start + n + k.
   */
  lemma SeqNumsContinue(start: Uint16, n: nat, k: nat)
    ensures ((start + n) % 0x1_0000 + k) % 0x1_0000 == (start + n + k) % 0x1_0000
  {
  }

  /** Up to 2^16 consecutive sequence numbers are pairwise different. */
  lemma SeqNumsDistinct(start: Uint16, j: nat, k: nat)
    requires j < k < 0x1_0000
    ensures (start + j) % 0x1_0000 != (start + k) % 0x1_0000
  {
  }

  /** `FlexfecSender`: one FEC stream protecting one media stream. */
  class FlexfecSender {
    const payloadType: int
    const ssrc: Uint32
    const protectedMediaSsrc: Uint32
    const timestampOffset: Uint32
    const rtpHeaderExtensionMap: HeaderExtensionMap
    /** `RtpHeaderExtensionMap::GetTotalLengthInBytes`, taken as given. */
    const extensionsLength: HeaderExtensionMap -> nat
    const generator: FecGenerator
    var seqNum: Uint16
    var lastGeneratedPacketMs: int

    /**
     * `FlexfecSender::FlexfecSender`. `randomTimestampOffset` and
     * `randomSeqNum` are the two draws from the clock-seeded random source,
     * the second one from [1, 0x7fff].
     */
    constructor (payloadType: int, ssrc: Uint32, protectedMediaSsrc: Uint32,
                 rtpHeaderExtensions: seq<RtpExtension>,
                 randomTimestampOffset: Uint32, randomSeqNum: Uint16,
                 extensionsLength: HeaderExtensionMap -> nat)
      requires 0 <= payloadType <= 127
      requires 1 <= randomSeqNum <= kMaxInitRtpSeqNumber
      ensures this.payloadType == payloadType && this.ssrc == ssrc
      ensures this.protectedMediaSsrc == protectedMediaSsrc
      ensures timestampOffset == randomTimestampOffset
      ensures 1 <= seqNum <= kMaxInitRtpSeqNumber && seqNum == randomSeqNum
      ensures lastGeneratedPacketMs == -1
      ensures rtpHeaderExtensionMap == BweExtensionMap(rtpHeaderExtensions)
      ensures this.extensionsLength == extensionsLength
      ensures fresh(generator) && generator.generatedFecPackets == []
    {
      var extensionMap := RegisterBweExtensions(rtpHeaderExtensions);
      this.payloadType := payloadType;
      this.ssrc := ssrc;
      this.protectedMediaSsrc := protectedMediaSsrc;
      timestampOffset := randomTimestampOffset;
      seqNum := randomSeqNum;
      lastGeneratedPacketMs := -1;
      rtpHeaderExtensionMap := extensionMap;
      this.extensionsLength := extensionsLength;
      generator := new FecGenerator();
    }

    /**
     * `FlexfecSender::AddRtpPacketAndGenerateFec`: only packets of the
     * protected media stream may be fed in. The engine's status code and
     * its generated payloads are inputs.
     */
    method AddRtpPacketAndGenerateFec(packet: RtpPacketToSend, engineStatus: int, engineGenerated: seq<Payload>)
      returns (ok: bool)
      requires packet.ssrc == protectedMediaSsrc
      modifies generator
      ensures ok <==> engineStatus == 0
      ensures generator.generatedFecPackets == engineGenerated
      ensures generator.resets == old(generator.resets)
    {
      generator.generatedFecPackets := engineGenerated;
      ok := engineStatus == 0;
    }

    /** `FlexfecSender::FecAvailable`. */
    function FecAvailable(): (r: bool)
      reads generator
      ensures r <==> |generator.generatedFecPackets| > 0
    {
      generator.FecAvailable()
    }

    /**
     * `FlexfecSender::GetFecPackets`: one RTP packet per generated FEC
     * payload, in order, then a reset of the engine. `clock(r)` is the
     * value of the r-th clock reading of the call: packet k reads the clock
     * twice, reading 2k for its timestamp and reading 2k + 1 for its
     * capture time, and the log check after the loop takes reading 2n.
     */
    method GetFecPackets(clock: nat -> int) returns (packets: seq<RtpPacketToSend>)
      modifies this, generator
      ensures |packets| == |old(generator.generatedFecPackets)|
      ensures forall k :: 0 <= k < |packets| ==>
                && packets[k].marker == false
                && packets[k].payloadType == payloadType
                && packets[k].ssrc == ssrc
                && packets[k].sequenceNumber == (old(seqNum) + k) % 0x1_0000
                && packets[k].timestamp == (timestampOffset + kMsToRtpTimestamp * clock(2 * k)) % 0x1_0000_0000
                && packets[k].captureTimeMs == clock(2 * k + 1)
                && packets[k].reservedExtensions == rtpHeaderExtensionMap.Keys
                && packets[k].payload == old(generator.generatedFecPackets)[k]
      ensures |packets| <= 0x1_0000 ==>
                forall j, k :: 0 <= j < k < |packets| ==> packets[j].sequenceNumber != packets[k].sequenceNumber
      ensures seqNum == (old(seqNum) + |packets|) % 0x1_0000
      ensures generator.generatedFecPackets == [] && generator.resets == old(generator.resets) + 1
      ensures lastGeneratedPacketMs ==
                if |packets| > 0 && clock(2 * |packets|) - old(lastGeneratedPacketMs) > kPacketLogIntervalMs
                then clock(2 * |packets|) else old(lastGeneratedPacketMs)
    {
      var generated := generator.generatedFecPackets;
      packets := [];
      for k := 0 to |generated|
        invariant |packets| == k
        invariant seqNum == (old(seqNum) + k) % 0x1_0000
        invariant lastGeneratedPacketMs == old(lastGeneratedPacketMs)
        invariant generator.generatedFecPackets == generated && generator.resets == old(generator.resets)
        invariant forall j :: 0 <= j < k ==>
                    && packets[j].marker == false
                    && packets[j].payloadType == payloadType
                    && packets[j].ssrc == ssrc
                    && packets[j].sequenceNumber == (old(seqNum) + j) % 0x1_0000
                    && packets[j].timestamp == (timestampOffset + kMsToRtpTimestamp * clock(2 * j)) % 0x1_0000_0000
                    && packets[j].captureTimeMs == clock(2 * j + 1)
                    && packets[j].reservedExtensions == rtpHeaderExtensionMap.Keys
                    && packets[j].payload == generated[j]
      {
        // The 64-bit product is truncated to 32 bits, then added with wrap-around.
        var stampMs := clock(2 * k);
        var timestamp := (timestampOffset + (kMsToRtpTimestamp * stampMs) % 0x1_0000_0000) % 0x1_0000_0000;
        WrapAdd32(timestampOffset, kMsToRtpTimestamp * stampMs);
        var packet := RtpPacketToSend(
          marker := false,
          payloadType := payloadType,
          sequenceNumber := seqNum,
          timestamp := timestamp,
          ssrc := ssrc,
          captureTimeMs := clock(2 * k + 1),
          reservedExtensions := rtpHeaderExtensionMap.Keys,
          payload := generated[k]);
        SeqNumsContinue(old(seqNum), k, 1);
        seqNum := (seqNum + 1) % 0x1_0000;
        packets := packets + [packet];
      }
      generator.ResetState();
      var nowMs := clock(2 * |packets|);
      if |packets| > 0 && nowMs - lastGeneratedPacketMs > kPacketLogIntervalMs {
        lastGeneratedPacketMs := nowMs;
      }
      if |packets| <= 0x1_0000 {
        forall j, k | 0 <= j < k < |packets|
          ensures packets[j].sequenceNumber != packets[k].sequenceNumber
        {
          SeqNumsDistinct(old(seqNum), j, k);
        }
      }
    }

    /**
     * `FlexfecSender::MaxPacketOverhead`: the registered extensions' length
     * plus the worst-case FlexFEC header.
     */
    function MaxPacketOverhead(): (r: nat)
      ensures r >= kFlexfecMaxHeaderSize
      ensures r - kFlexfecMaxHeaderSize == extensionsLength(rtpHeaderExtensionMap)
    {
      extensionsLength(rtpHeaderExtensionMap) + kFlexfecMaxHeaderSize
    }
  }
}
