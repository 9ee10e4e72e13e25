/**
 * The FlexFEC receive stream: normalises its configuration to a single
 * protected media stream, creates the FEC receiver for it (or none when no
 * protected stream is configured), and gates packet intake behind a
 * started/stopped switch. The receiver's processing is a given function
 * that answers whether a packet was processed.
 */
module FlexfecReceiveStream {
  import opened Wrappers

  type Uint32 = x: int | 0 <= x < 0x1_0000_0000
  type Packet = seq<bv8>

  /** `FlexfecReceiveStream::Config`. */
  datatype Config = Config(
    flexfecPayloadType: int,
    flexfecSsrc: Uint32,
    protectedMediaSsrcs: seq<Uint32>)

  /** `FlexfecReceiveStream::Stats`. */
  datatype Stats = Stats(flexfecBitrateBps: int)

  /** The identity of a `FlexfecReceiver`: its FEC stream and the one media stream it protects. */
  datatype FlexfecReceiver = FlexfecReceiver(ssrc: Uint32, protectedMediaSsrc: Uint32)

  /**
   * `MaybeUpdateConfigAndCreateFlexfecReceiver`: no protected SSRC gives no
   * receiver; more than one is cut down to the first; the receiver is bound
   * to the FEC SSRC and that first protected SSRC.
   */
  function MaybeUpdateConfigAndCreateFlexfecReceiver(config: Config): (r: (Config, Option<FlexfecReceiver>))
    ensures |config.protectedMediaSsrcs| == 0 <==> r.1 == None
    ensures |config.protectedMediaSsrcs| == 0 ==> r.0 == config
    ensures |config.protectedMediaSsrcs| > 0 ==>
              && r.0 == config.(protectedMediaSsrcs := [config.protectedMediaSsrcs[0]])
              && r.1 == Some(FlexfecReceiver(config.flexfecSsrc, config.protectedMediaSsrcs[0]))
    ensures |r.0.protectedMediaSsrcs| <= 1
  {
    if |config.protectedMediaSsrcs| == 0 then
      (config, None)
    else
      var updated :=
        if |config.protectedMediaSsrcs| > 1 then config.(protectedMediaSsrcs := config.protectedMediaSsrcs[..1])
        else config;
      (updated, Some(FlexfecReceiver(updated.flexfecSsrc, updated.protectedMediaSsrcs[0])))
  }

  /** Normalising an already normalised configuration changes nothing. */
  lemma NormalisationIdempotent(config: Config)
    ensures var (once, _) := MaybeUpdateConfigAndCreateFlexfecReceiver(config);
            MaybeUpdateConfigAndCreateFlexfecReceiver(once) == MaybeUpdateConfigAndCreateFlexfecReceiver(config)
  {
  }

  /** `internal::FlexfecReceiveStream`. */
  class FlexfecReceiveStream {
    var started: bool
    var config: Config
    const receiver: Option<FlexfecReceiver>
    /** The packets handed on to the receiver so far. */
    ghost var delivered: seq<Packet>

    /** The stored configuration protects at most one stream, the receiver's. */
    ghost predicate Valid()
      reads this
    {
      && |config.protectedMediaSsrcs| <= 1
      && (receiver.Some? <==> |config.protectedMediaSsrcs| == 1)
      && (receiver.Some? ==> receiver.value == FlexfecReceiver(config.flexfecSsrc, config.protectedMediaSsrcs[0]))
    }

    /** `FlexfecReceiveStream::FlexfecReceiveStream`: not started, configuration normalised. */
    constructor (configuration: Config)
      ensures Valid()
      ensures !started && delivered == []
      ensures (config, receiver) == MaybeUpdateConfigAndCreateFlexfecReceiver(configuration)
    {
      var normalised := MaybeUpdateConfigAndCreateFlexfecReceiver(configuration);
      started := false;
      config := normalised.0;
      receiver := normalised.1;
      delivered := [];
    }

    /** `FlexfecReceiveStream::Start`. */
    method Start()
      requires Valid()
      modifies this
      ensures Valid()
      ensures started
      ensures config == old(config) && delivered == old(delivered)
    {
      started := true;
    }

    /** `FlexfecReceiveStream::Stop`. */
    method Stop()
      requires Valid()
      modifies this
      ensures Valid()
      ensures !started
      ensures config == old(config) && delivered == old(delivered)
    {
      started := false;
    }

    /** `FlexfecReceiveStream::~FlexfecReceiveStream`: the stream ends up stopped. */
    method Destroy()
      requires Valid()
      modifies this
      ensures Valid()
      ensures !started
      ensures config == old(config) && delivered == old(delivered)
    {
      Stop();
    }

    /**
     * `FlexfecReceiveStream::AddAndProcessReceivedPacket`: refused while
     * stopped or without a receiver; otherwise the receiver's answer.
     * `process` is the receiver's own packet handling.
     */
    method AddAndProcessReceivedPacket(packet: Packet, process: (FlexfecReceiver, Packet) -> bool)
      returns (processed: bool)
      requires Valid()
      modifies this
      ensures Valid()
      ensures started == old(started) && config == old(config)
      ensures processed <==> started && receiver.Some? && process(receiver.value, packet)
      ensures delivered == if started && receiver.Some? then old(delivered) + [packet] else old(delivered)
    {
      if !started {
        return false;
      }
      if receiver.None? {
        return false;
      }
      delivered := delivered + [packet];
      processed := process(receiver.value, packet);
    }

    /** `FlexfecReceiveStream::GetStats`: not computed yet, always the default. */
    function GetStats(): (stats: Stats)
      ensures stats.flexfecBitrateBps == 0
    {
      Stats(0)
    }
  }

  /** A stream whose configuration had no protected SSRC never processes a packet. */
  method InertStream(configuration: Config, packet: Packet, process: (FlexfecReceiver, Packet) -> bool)
    returns (processed: bool)
    requires configuration.protectedMediaSsrcs == []
    ensures !processed
  {
    var stream := new FlexfecReceiveStream(configuration);
    stream.Start();
    processed := stream.AddAndProcessReceivedPacket(packet, process);
    stream.Destroy();
  }

  /** Two protected SSRCs are truncated to the first; the FEC SSRC and payload type are kept. */
  method TruncatedConfiguration() returns (stored: Config)
    ensures stored == Config(118, 38837212, [27273])
  {
    var stream := new FlexfecReceiveStream(Config(118, 38837212, [27273, 99999]));
    stored := stream.config;
    stream.Destroy();
  }

  /**
   * Streams protecting the same media SSRC under different FEC SSRCs run
   * independently: stopping one leaves the other started and its receiver
   * still answering.
   */
  method IndependentStreams(packet: Packet, process: (FlexfecReceiver, Packet) -> bool)
    returns (first: bool, second: bool)
    ensures !first
    ensures second == process(FlexfecReceiver(424993, 1324234), packet)
  {
    var a := new FlexfecReceiveStream(Config(118, 838383, [1324234]));
    var b := new FlexfecReceiveStream(Config(118, 424993, [1324234]));
    a.Start();
    b.Start();
    a.Stop();
    first := a.AddAndProcessReceivedPacket(packet, process);
    second := b.AddAndProcessReceivedPacket(packet, process);
    a.Destroy();
    b.Destroy();
  }
}
