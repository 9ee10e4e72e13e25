# FlexFEC and codec bookkeeping, modelled in Dafny

This project models three pieces of RTP bookkeeping from a WebRTC media stack and proves what they promise.

- **Codec value logic** (`codec.dfy`, module `Codec`; helpers in `strings.dfy`, module `Strings`).
  - RTCP feedback parameter lists. The list is duplicate-free under case-insensitive comparison, with add, membership and in-place intersect.
  - Codec matching by the static/dynamic payload-type rule. Payload types up to 95 are static (RFC 3551, section 3).
  - Audio matching with wildcards. A channel count of 0 means one channel (RFC 4566, section 6).
  - The string-keyed codec parameter map.
  - Classification of video codecs by name, and validation of the 7-bit payload type (RFC 3550, section 5.1) and of the bitrate limits.
- **FlexFEC sender** (`flexfec_sender.dfy`, module `FlexfecSender`).
  - It wraps FEC payloads from the FEC engine into outbound RTP packets.
  - Sequence numbers are consecutive and wrap at 16 bits. The first one is drawn from [1, 0x7fff].
  - The timestamp is a random offset plus 90 ticks per clock millisecond, wrapping at 32 bits.
  - Payload type and SSRC are fixed, the marker bit is cleared and the payload is copied byte for byte.
  - It registers the allow-list of bandwidth-estimation header extensions and reports its worst-case per-packet overhead.
- **FlexFEC receive stream** (`flexfec_receive_stream.dfy`, module `FlexfecReceiveStream`).
  - Construction normalises the configuration: no protected SSRC gives no receiver, and several are cut down to the first.
  - A started/stopped switch gates packet intake.

Inputs taken as parameters:
- The FEC engine is an input: the list of payloads it has generated, and a status code.
- The receiver's packet processing is an input: a function that answers true or false.
- The clock is an input: a function from the index of each clock reading within a call to the value read.
- The random source is an input: the two draws made at construction.
- `RtpHeaderExtensionMap::GetTotalLengthInBytes` is an input: a function from the registered map to a byte count.

Text constants come from `webrtc/media/base/mediaconstants.cc` and the RTP header extension classes. Those files are not part of this model. The values used are: "red", "ulpfec", "flexfec-03", "rtx", "VP8", "VP9", "H264", "x-google-min-bitrate", "x-google-max-bitrate", "apt", the 90000 Hz video clock, and the three extension URIs.

## Model

| member | source | states |
|---|---|---|
| Codec.CodecNamesEq | webrtc/media/base/codec.cc:301-307 | names are equal iff they have the same length and agree character by character after ASCII lower-casing |
| Codec.FeedbackParamEq | webrtc/media/base/codec.cc:25-28 | two feedback parameters are equal iff their ids have the same length and agree character by character after ASCII lower-casing, and so do their params |
| Codec.FeedbackParamEqEquivalence | webrtc/media/base/codec.cc:25-28 | feedback parameter equality (id and param, both ignoring case) is reflexive, symmetric and transitive |
| Codec.Find | webrtc/media/base/codec.cc:34-36 | the `std::find` scan behind `Has` is true iff some entry of the list equals the parameter |
| Codec.FeedbackParams.Has | webrtc/media/base/codec.cc:34-36 | true iff some entry of the list equals the parameter |
| Codec.FeedbackParams.HasDuplicateEntries | webrtc/media/base/codec.cc:61-72 | true iff there are indices i < j whose entries are equal |
| Codec.FeedbackParams.Add | webrtc/media/base/codec.cc:38-48 | list unchanged if the id is empty or the parameter is already present, otherwise the parameter is appended at the end; the list stays duplicate-free and afterwards has the parameter |
| Codec.FeedbackParams.Intersect | webrtc/media/base/codec.cc:50-59 | the list becomes the entries of the old list that `from` has, in their old order, and stays duplicate-free |
| Codec.FilterMembers | webrtc/media/base/codec.cc:50-59 | intersecting keeps exactly the entries that `from` has and adds none |
| Codec.FilterConcat | webrtc/media/base/codec.cc:50-59 | intersecting distributes over concatenation, so relative order is kept |
| Codec.FilterNoDuplicates | webrtc/media/base/codec.cc:50-59 | intersecting a duplicate-free list gives a duplicate-free list |
| Codec.IntersectWithSelf | webrtc/media/base/codec.cc:50-59 | intersecting a list with itself erases nothing |
| Codec.Codec.constructor | webrtc/media/base/codec.cc:74-75 | a codec has the given payload type, name and clock rate and no parameters |
| Codec.Codec.Matches | webrtc/media/base/codec.cc:91-98 | if either payload type is at most 95, match iff the payload types are equal; otherwise match iff the names agree ignoring case |
| Codec.MatchesReflexive | webrtc/media/base/codec.cc:91-98 | every codec matches itself |
| Codec.MatchesSymmetric | webrtc/media/base/codec.cc:91-98 | a matches b iff b matches a |
| Codec.MatchesTransitive | webrtc/media/base/codec.cc:91-98 | matching is transitive, so with the two above it is an equivalence |
| Codec.Codec.GetParam | webrtc/media/base/codec.cc:100-106 | a value is returned iff the key is present, and it is the stored value |
| Codec.Codec.GetIntParam | webrtc/media/base/codec.cc:108-113 | a number is returned iff the key is present and its value parses as a decimal integer |
| Codec.Codec.SetParam | webrtc/media/base/codec.cc:115-117 | only this key changes; `GetParam` then returns the value |
| Codec.Codec.SetIntParam | webrtc/media/base/codec.cc:119-121 | only this key changes, to the decimal form of the value; `GetIntParam` then returns the same integer |
| Strings.IntRoundTrip | webrtc/media/base/codec.cc:108-121 | parsing the decimal text written for an integer gives the integer back |
| Codec.Codec.RemoveParam | webrtc/media/base/codec.cc:123-125 | returns true iff the key was present; only this key is removed, and `GetParam` then finds nothing |
| Codec.AudioCodec.constructor | webrtc/media/base/codec.cc:147-152 | an audio codec has the given payload type, name, clock rate, bitrate and channel count, and no parameters |
| Codec.AudioCodec.Matches | webrtc/media/base/codec.cc:166-181 | base match, the other clock rate is 0 or equal, the other bitrate is 0 or ours is at most 0 or they are equal, and the channel counts are equal once 0 is read as 1 |
| Codec.AudioMatchesReflexive | webrtc/media/base/codec.cc:166-181 | every audio codec matches itself |
| Codec.AudioMatchesRefinesBase | webrtc/media/base/codec.cc:166-181 | an audio match implies the base match in both directions, a compatible clock rate and compatible channel counts |
| Codec.AudioMatchesMonoChannels | webrtc/media/base/codec.cc:170-180 | channel counts 0 and 1 are interchangeable on either side |
| Codec.AudioMatchesClockrateWildcardOneSided | webrtc/media/base/codec.cc:176-178 | a zero clock rate is a wildcard only on the side being matched against, so audio matching is not symmetric |
| Codec.VideoCodec.constructor | webrtc/media/base/codec.cc:202-203 | a video codec has the given payload type and name, the 90 kHz clock and no parameters |
| Codec.VideoCodec.CreateRtxCodec | webrtc/media/base/codec.cc:221-226 | the result is a codec named exactly "rtx", with the given payload type and the 90 kHz clock, whose only parameter "apt" "apt" parameter reads back as the associated payload type; it validates iff its payload type is in [0, 127] |
| Codec.VideoCodec.GetCodecType | webrtc/media/base/codec.cc:228-244 | each of RED, ULPFEC, FlexFEC and RTX is reported iff the name equals that constant ignoring case; any other name is plain video |
| Codec.GetCodecTypeIgnoresCase | webrtc/media/base/codec.cc:228-244 | two codecs whose names agree ignoring case get the same type |
| Codec.VideoCodec.ValidateCodecFormat | webrtc/media/base/codec.cc:246-266 | false if the payload type is outside [0, 127]; otherwise true for RED, ULPFEC, FlexFEC and RTX; for plain video, false iff both bitrate limits parse and the maximum is below the minimum |
| Codec.ValidateBitrateLimits | webrtc/media/base/codec.cc:246-266 | for plain video with limits stored as integers, validation holds iff min <= max |
| Codec.CodecTypeFromName | webrtc/media/base/codec.cc:309-318 | VP8, VP9 and H264 are each reported iff the name equals that constant ignoring case |
| Codec.IsCodecSupported | webrtc/media/base/codec.cc:320-326 | true iff some supported codec has the same name ignoring case |
| Codec.IsCodecSupportedIgnoresCase | webrtc/media/base/codec.cc:320-326 | two codecs whose names agree ignoring case are supported alike |
| FlexfecSender.RegisterBweExtensions | webrtc/modules/rtp_rtcp/source/flexfec_sender.cc:41-58 | the map built is the in-order registration of the BWE extensions |
| FlexfecSender.BweExtensionMapKeys | webrtc/modules/rtp_rtcp/source/flexfec_sender.cc:41-58 | a type is registered iff some requested extension has its URI; only the three BWE types can be registered |
| FlexfecSender.BweExtensionMapLastId | webrtc/modules/rtp_rtcp/source/flexfec_sender.cc:44-50 | under the plain-map registration this model uses in place of `RtpHeaderExtensionMap::Register`, a registered type carries the id of the last extension that asked for it; this describes the abstraction, not a promise of the C++ code |
| FlexfecSender.BweExtensionMapSkipsOthers | webrtc/modules/rtp_rtcp/source/flexfec_sender.cc:51-55 | an unsupported extension anywhere in the list changes nothing and causes no failure |
| FlexfecSender.FlexfecSender.constructor | webrtc/modules/rtp_rtcp/source/flexfec_sender.cc:62-87 | requires a payload type in [0, 127]; the first sequence number is the draw from [1, 0x7fff]; the timestamp offset is the other draw; no packet logged yet (-1); extensions registered as above; the engine starts empty |
| FlexfecSender.FlexfecSender.AddRtpPacketAndGenerateFec | webrtc/modules/rtp_rtcp/source/flexfec_sender.cc:98-106 | requires the packet's SSRC to be the protected media SSRC; true iff the engine reports success |
| FlexfecSender.FlexfecSender.FecAvailable | webrtc/modules/rtp_rtcp/source/flexfec_sender.cc:108-111 | true iff the engine holds generated FEC payloads |
| FlexfecSender.FlexfecSender.GetFecPackets | webrtc/modules/rtp_rtcp/source/flexfec_sender.cc:113-160 | one packet per generated payload, in order. Each has marker false, the configured payload type and FEC SSRC, sequence number (start + k) mod 2^16, timestamp (offset + 90 * t) mod 2^32 for the clock reading t taken for it, capture time from the next clock reading, the registered extensions reserved and a byte-identical payload. With at most 2^16 packets, their sequence numbers are pairwise different. The sequence number advances by the count mod 2^16. The engine is reset exactly once. The last-logged time changes only when packets were produced and more than 10000 ms have passed by the clock reading taken after the loop |
| FlexfecSender.FecGenerator.ResetState | webrtc/modules/rtp_rtcp/source/flexfec_sender.cc:146 | the generated payloads are dropped and the reset is counted once |
| FlexfecSender.SeqNumsContinue | webrtc/modules/rtp_rtcp/source/flexfec_sender.cc:126 | the next call's sequence numbers continue where the last call stopped, mod 2^16 |
| FlexfecSender.SeqNumsDistinct | webrtc/modules/rtp_rtcp/source/flexfec_sender.cc:126 | up to 2^16 consecutive sequence numbers are pairwise different; `GetFecPackets` uses it for the packets of one call |
| FlexfecSender.WrapAdd32 | webrtc/modules/rtp_rtcp/source/flexfec_sender.cc:127-130 | truncating the 90 kHz product to 32 bits before the wrapping add gives (offset + 90 * nowMs) mod 2^32 |
| FlexfecSender.FlexfecSender.MaxPacketOverhead | webrtc/modules/rtp_rtcp/source/flexfec_sender.cc:162-166 | the registered extensions' total length plus 32 bytes of FlexFEC header; never below 32 |
| FlexfecReceiveStream.MaybeUpdateConfigAndCreateFlexfecReceiver | webrtc/call/flexfec_receive_stream.cc:28-48 | no receiver iff there is no protected SSRC, and then the config is unchanged; otherwise the config keeps exactly the first protected SSRC and its other fields, and the receiver is bound to (FEC SSRC, that SSRC) |
| FlexfecReceiveStream.NormalisationIdempotent | webrtc/call/flexfec_receive_stream.cc:35-44 | normalising an already normalised configuration changes nothing |
| FlexfecReceiveStream.FlexfecReceiveStream.constructor | webrtc/call/flexfec_receive_stream.cc:54-63 | a new stream is not started and holds the normalised configuration and its receiver |
| FlexfecReceiveStream.FlexfecReceiveStream.Destroy | webrtc/call/flexfec_receive_stream.cc:65-68 | destruction leaves the stream stopped and changes nothing else |
| FlexfecReceiveStream.FlexfecReceiveStream.AddAndProcessReceivedPacket | webrtc/call/flexfec_receive_stream.cc:70-80 | true iff started, a receiver exists and the receiver accepts the packet; the receiver sees the packet only in that case |
| FlexfecReceiveStream.FlexfecReceiveStream.Start | webrtc/call/flexfec_receive_stream.cc:82-85 | started afterwards, whatever before; nothing else changes and the configuration invariant is kept |
| FlexfecReceiveStream.FlexfecReceiveStream.Stop | webrtc/call/flexfec_receive_stream.cc:87-90 | stopped afterwards, whatever before; nothing else changes and the configuration invariant is kept |
| FlexfecReceiveStream.FlexfecReceiveStream.GetStats | webrtc/call/flexfec_receive_stream.cc:94-96 | always the default statistics, a bitrate of 0, whatever the state |
| FlexfecReceiveStream.InertStream | webrtc/call/flexfec_receive_stream.cc:31-34 | a stream configured without a protected SSRC never processes a packet, even when started |
| FlexfecReceiveStream.TruncatedConfiguration | webrtc/call/flexfec_receive_stream.cc:35-44 | protected SSRCs {27273, 99999} are stored as exactly {27273}, with FEC SSRC and payload type kept |
| FlexfecReceiveStream.IndependentStreams | webrtc/call/call_unittest.cc:158-190 | two streams protecting one media SSRC under different FEC SSRCs do not affect each other's switch or receiver |

## Left out

- Codec.Codec.Matches: `_stricmp` is modelled as ASCII case folding in the C locale on strings without NUL characters. Locale-specific folding and truncation at an embedded NUL are not modelled.
- Codec.Codec.GetIntParam: `rtc::FromString` is modelled as a strict parser of an optional '-' followed by decimal digits. Stream extraction also skips leading white space, accepts '+', ignores trailing characters and fails on 32-bit overflow. None of that is modelled.
- Codec.Codec.SetIntParam: the C++ `int` is unbounded here; its 32-bit range is not modelled.
- Codecs: `id`, `name`, `clockrate`, `bitrate` and `channels` are public fields in C++. No operation modelled here reassigns them, so they are fixed at construction. Assigning them from outside is not modelled.
- Codecs: `AudioCodec` and `VideoCodec` hold their `Codec` part as a field (`base`) instead of inheriting from it.
- Codec.FeedbackParams.Intersect: `from` is read once on entry. When `from` is the list itself, the C++ loop erases nothing, and neither does the model (`IntersectWithSelf`).
- Codec operations not listed in the table are not modelled: the copy/move constructors and assignments, `operator==` of codecs and of feedback lists, `ToCodecParameters` and the `ToString` formatting. The feedback delegates on `Codec` (`AddFeedbackParam`, `HasFeedbackParam`, `IntersectFeedbackParams`) and `HasNack`, `HasRemb` and `HasTransportCc` just forward to the list operations above. `DataCodec` only sets its clock rate.
- FlexfecSender.RegisterBweExtensions: `RtpHeaderExtensionMap::Register` is not part of this model. A registration here is a plain map update, so a later extension of the same type overrides an earlier one. The checks `Register` makes on ids and clashes are not modelled.
- FlexfecSender.FlexfecSender.MaxPacketOverhead: `GetTotalLengthInBytes` is taken as a given function of the registered map; its byte layout is not modelled.
- FlexfecSender.FlexfecSender.GetFecPackets: the 64-bit product of 90 and a clock reading is assumed not to overflow. The clock itself is modelled reading by reading: two readings per packet, so a packet's timestamp and capture time may come from different instants, and one more for the log check.
- FlexfecSender.FlexfecSender.AddRtpPacketAndGenerateFec: the FEC engine (`ForwardErrorCorrection`, `UlpfecGenerator`) is not part of this model. Its status code and its list of generated payloads are inputs.
- FlexfecSender.FlexfecSender.constructor: the clock-seeded `Random` is not part of this model. Its two draws are inputs, and the second is required to lie in the range `Rand(1, 0x7fff)` promises.
- `FlexfecSender::SetFecParameters` only forwards the protection parameters to the FEC engine, which is not modelled, so it is left out.
- Logging and the sequence checker are left out. The `rtc::CritScope` lock around the started flag is left out too: the model is sequential.
- FlexfecReceiveStream.FlexfecReceiveStream.AddAndProcessReceivedPacket: the receiver's parsing, recovery and delivery to the recovered-packet callback are not part of this model. Its answer is the given function; the ghost field `delivered` records which packets reach it.
- `FlexfecReceiveStream::Stats::ToString` is string formatting and is left out.
- `Call` and its stream registry are not part of this model; `call_unittest.cc` is used only for the scenario in `IndependentStreams`.
