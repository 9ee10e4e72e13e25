/**
 * The codec value logic of the media layer: RTCP feedback parameter lists,
 * codec matching by the static/dynamic payload-type rule, the string-keyed
 * codec parameter map, and video codec classification and validation.
 */
module Codec {
  import opened Wrappers
  import opened Strings

  /** Largest 7-bit RTP payload type (RFC 3550, section 5.1). */
  const kMaxPayloadId := 127
  /** Payload types up to 95 are statically assigned (RFC 3551, section 3). */
  const kMaxStaticPayloadId := 95

  const kVideoCodecClockrate := 90000
  const kRedCodecName := "red"
  const kUlpfecCodecName := "ulpfec"
  const kFlexfecCodecName := "flexfec-03"
  const kRtxCodecName := "rtx"
  const kVp8CodecName := "VP8"
  const kVp9CodecName := "VP9"
  const kH264CodecName := "H264"
  const kCodecParamMinBitrate := "x-google-min-bitrate"
  const kCodecParamMaxBitrate := "x-google-max-bitrate"
  const kCodecParamAssociatedPayloadType := "apt"

  /** `CodecNamesEq`: codec names compare ASCII case-insensitively. */
  function CodecNamesEq(name1: string, name2: string): (r: bool)
    ensures r <==> |name1| == |name2| &&
                   forall i :: 0 <= i < |name1| ==> Lower(name1[i]) == Lower(name2[i])
  {
    EqualsIgnoreCaseAt(name1, name2);
    EqualsIgnoreCase(name1, name2)
  }

  // ---------------------------------------------------------------------------
  // RTCP feedback parameters

  datatype FeedbackParam = FeedbackParam(id: string, param: string)

  /** `FeedbackParam::operator==`: both parts equal up to ASCII case. */
  predicate FeedbackParamEq(self: FeedbackParam, other: FeedbackParam): (r: bool)
    ensures r <==> && |self.id| == |other.id| && |self.param| == |other.param|
                   && (forall i :: 0 <= i < |self.id| ==> Lower(other.id[i]) == Lower(self.id[i]))
                   && (forall i :: 0 <= i < |self.param| ==> Lower(other.param[i]) == Lower(self.param[i]))
  {
    EqualsIgnoreCaseAt(other.id, self.id);
    EqualsIgnoreCaseAt(other.param, self.param);
    EqualsIgnoreCase(other.id, self.id) && EqualsIgnoreCase(other.param, self.param)
  }

  /** `FeedbackParam::operator==` is an equivalence relation. */
  lemma FeedbackParamEqEquivalence(a: FeedbackParam, b: FeedbackParam, c: FeedbackParam)
    ensures FeedbackParamEq(a, a)
    ensures FeedbackParamEq(a, b) <==> FeedbackParamEq(b, a)
    ensures FeedbackParamEq(a, b) && FeedbackParamEq(b, c) ==> FeedbackParamEq(a, c)
  {
    EqualsIgnoreCaseReflexive(a.id);
    EqualsIgnoreCaseReflexive(a.param);
    EqualsIgnoreCaseSymmetric(a.id, b.id);
    EqualsIgnoreCaseSymmetric(a.param, b.param);
    if FeedbackParamEq(a, b) && FeedbackParamEq(b, c) {
      EqualsIgnoreCaseSymmetric(b.id, c.id);
      EqualsIgnoreCaseSymmetric(b.param, c.param);
      EqualsIgnoreCaseSymmetric(a.id, c.id);
      EqualsIgnoreCaseSymmetric(a.param, c.param);
      EqualsIgnoreCaseTransitive(a.id, b.id, c.id);
      EqualsIgnoreCaseTransitive(a.param, b.param, c.param);
    }
  }

  /** `std::find` with `operator==`: is some entry of `ps` equal to `p`? */
  function Find(ps: seq<FeedbackParam>, p: FeedbackParam): (r: bool)
    ensures r <==> exists i :: 0 <= i < |ps| && FeedbackParamEq(ps[i], p)
  {
    if ps == [] then false
    else if FeedbackParamEq(ps[0], p) then true
    else
      var rest := Find(ps[1..], p);
      assert forall i :: 1 <= i < |ps| ==> ps[i] == ps[1..][i - 1];
      rest
  }

  /** No two entries of `ps` are equal under `FeedbackParam::operator==`. */
  ghost predicate NoDuplicates(ps: seq<FeedbackParam>)
  {
    forall i, j :: 0 <= i < j < |ps| ==> !FeedbackParamEq(ps[j], ps[i])
  }

  /** The entries of `s` that `from` has, in their original order. */
  function Filter(s: seq<FeedbackParam>, from: seq<FeedbackParam>): seq<FeedbackParam>
  {
    if s == [] then []
    else Filter(s[..|s| - 1], from) + (if Find(from, s[|s| - 1]) then [s[|s| - 1]] else [])
  }

  /** One more element of `s` considered by the filter. */
  lemma FilterStep(s: seq<FeedbackParam>, k: nat, from: seq<FeedbackParam>)
    requires k < |s|
    ensures Filter(s[..k + 1], from) ==
              Filter(s[..k], from) + (if Find(from, s[k]) then [s[k]] else [])
  {
    assert s[..k + 1][..k] == s[..k];
  }

  /**
   * One iteration of the erase loop in `FeedbackParams::Intersect`: the
   * element at the cursor is the next unfiltered one, and erasing or
   * keeping it extends the filtered prefix by one element of `s`.
   */
  lemma IntersectStep(s: seq<FeedbackParam>, k: nat, from: seq<FeedbackParam>,
                      ps: seq<FeedbackParam>, i: nat)
    requires k < |s|
    requires ps == Filter(s[..k], from) + s[k..] && i == |Filter(s[..k], from)|
    ensures i < |ps| && ps[i] == s[k]
    ensures !Find(from, ps[i]) ==> ps[..i] + ps[i + 1..] == Filter(s[..k + 1], from) + s[k + 1..]
    ensures Find(from, ps[i]) ==> ps == Filter(s[..k + 1], from) + s[k + 1..] &&
                                  i + 1 == |Filter(s[..k + 1], from)|
    ensures !Find(from, ps[i]) ==> i == |Filter(s[..k + 1], from)|
  {
    FilterStep(s, k, from);
    assert s[k..] == [s[k]] + s[k + 1..];
    assert ps[i + 1..] == s[k + 1..];
  }

  /** Filtering keeps exactly the entries that `from` has, and nothing new. */
  lemma {:induction false} FilterMembers(s: seq<FeedbackParam>, from: seq<FeedbackParam>)
    ensures |Filter(s, from)| <= |s|
    ensures forall x :: x in Filter(s, from) <==> x in s && Find(from, x)
  {
    if s != [] {
      FilterMembers(s[..|s| - 1], from);
      assert s == s[..|s| - 1] + [s[|s| - 1]];
    }
  }

  /** Filtering distributes over concatenation, so relative order is kept. */
  lemma {:induction false} FilterConcat(s: seq<FeedbackParam>, t: seq<FeedbackParam>, from: seq<FeedbackParam>)
    ensures Filter(s + t, from) == Filter(s, from) + Filter(t, from)
  {
    if t == [] {
      assert s + t == s;
    } else {
      var t' := t[..|t| - 1];
      FilterConcat(s, t', from);
      assert (s + t)[..|s + t| - 1] == s + t';
    }
  }

  /** Intersecting a list with itself leaves it unchanged. */
  lemma {:induction false} FilterSelf(s: seq<FeedbackParam>, t: seq<FeedbackParam>)
    requires forall i :: 0 <= i < |s| ==> s[i] in t
    ensures Filter(s, t) == s
  {
    if s != [] {
      var x := s[|s| - 1];
      FilterSelf(s[..|s| - 1], t);
      var k :| 0 <= k < |t| && t[k] == x;
      FeedbackParamEqEquivalence(x, x, x);
      assert Find(t, x);
    }
  }

  /** Filtering a duplicate-free list gives a duplicate-free list. */
  lemma {:induction false} FilterNoDuplicates(s: seq<FeedbackParam>, from: seq<FeedbackParam>)
    requires NoDuplicates(s)
    ensures NoDuplicates(Filter(s, from))
  {
    if s != [] {
      var init := s[..|s| - 1];
      var last := s[|s| - 1];
      assert NoDuplicates(init);
      FilterNoDuplicates(init, from);
      FilterMembers(init, from);
      var f := Filter(init, from);
      forall i | 0 <= i < |f| ensures !FeedbackParamEq(last, f[i]) {
        assert f[i] in init;
        var m :| 0 <= m < |init| && init[m] == f[i];
        assert s[m] == f[i];
      }
    }
  }

  /**
   * `FeedbackParams`: a duplicate-free vector of feedback parameters.
   */
  class FeedbackParams {
    var params: seq<FeedbackParam>

    ghost predicate Valid()
      reads this
    {
      NoDuplicates(params)
    }

    constructor ()
      ensures Valid() && params == []
    {
      params := [];
    }

    /** `FeedbackParams::Has`. */
    function Has(p: FeedbackParam): (r: bool)
      reads this
      ensures r <==> exists i :: 0 <= i < |params| && FeedbackParamEq(params[i], p)
    {
      Find(params, p)
    }

    /** `FeedbackParams::HasDuplicateEntries`: two nested scans over the vector. */
    method HasDuplicateEntries() returns (r: bool)
      ensures r <==> exists i, j :: 0 <= i < j < |params| && FeedbackParamEq(params[j], params[i])
    {
      var i := 0;
      while i < |params|
        invariant 0 <= i <= |params|
        invariant forall a, b :: 0 <= a < i && a < b < |params| ==> !FeedbackParamEq(params[b], params[a])
      {
        var j := i + 1;
        while j < |params|
          invariant i + 1 <= j <= |params|
          invariant forall b :: i < b < j ==> !FeedbackParamEq(params[b], params[i])
        {
          if FeedbackParamEq(params[j], params[i]) {
            return true;
          }
          j := j + 1;
        }
        i := i + 1;
      }
      return false;
    }

    /**
     * `FeedbackParams::Add`: ignore an empty id or a parameter already
     * present, otherwise append at the end.
     */
    method Add(p: FeedbackParam)
      requires Valid()
      modifies this
      ensures Valid()
      ensures params == if p.id == [] || Find(old(params), p) then old(params) else old(params) + [p]
      ensures p.id != [] ==> Has(p)
    {
      if p.id == [] {
        return;
      }
      if Has(p) {
        return;
      }
      forall i | 0 <= i < |params| ensures !FeedbackParamEq(p, params[i]) {
        FeedbackParamEqEquivalence(params[i], p, p);
      }
      params := params + [p];
      FeedbackParamEqEquivalence(p, p, p);
      assert FeedbackParamEq(params[|params| - 1], p);
      var duplicated := HasDuplicateEntries();
      assert !duplicated;
    }

    /**
     * `FeedbackParams::Intersect`: erase, in place, every entry that `from`
     * does not have. `from` is read once up front; when it is this very
     * list, no entry is erased either way (see `IntersectWithSelf`).
     */
    method Intersect(from: FeedbackParams)
      requires Valid()
      modifies this
      ensures Valid()
      ensures params == Filter(old(params), old(from.params))
    {
      var fromParams := from.params;
      ghost var original := params;
      var i := 0;
      ghost var done := 0;
      while i < |params|
        invariant 0 <= done <= |original|
        invariant params == Filter(original[..done], fromParams) + original[done..]
        invariant i == |Filter(original[..done], fromParams)|
        invariant |params| == i + (|original| - done)
        decreases |params| - i
      {
        IntersectStep(original, done, fromParams, params, i);
        if !Find(fromParams, params[i]) {
          params := params[..i] + params[i + 1..];
        } else {
          i := i + 1;
        }
        done := done + 1;
      }
      assert original[..done] == original;
      assert params == Filter(original, fromParams);
      FilterNoDuplicates(original, fromParams);
    }
  }

  /** Intersecting a feedback list with itself erases nothing. */
  lemma IntersectWithSelf(ps: seq<FeedbackParam>)
    ensures Filter(ps, ps) == ps
  {
    FilterSelf(ps, ps);
  }

  // ---------------------------------------------------------------------------
  // Codecs

  /**
   * `Codec`: payload type, name and clock rate (fixed here after
   * construction) and the string-keyed parameter map, updated in place.
   */
  class Codec {
    const id: int
    const name: string
    const clockrate: int
    var params: map<string, string>

    constructor (id: int, name: string, clockrate: int)
      ensures this.id == id && this.name == name && this.clockrate == clockrate
      ensures params == map[]
    {
      this.id := id;
      this.name := name;
      this.clockrate := clockrate;
      params := map[];
    }

    /**
     * `Codec::Matches`: a static payload type on either side must match
     * exactly; two dynamic ones match by name, ignoring case.
     */
    function Matches(codec: Codec): (r: bool)
      ensures (id <= kMaxStaticPayloadId || codec.id <= kMaxStaticPayloadId) ==>
                (r <==> id == codec.id)
      ensures (id > kMaxStaticPayloadId && codec.id > kMaxStaticPayloadId) ==>
                (r <==> |name| == |codec.name| &&
                        forall i :: 0 <= i < |name| ==> Lower(name[i]) == Lower(codec.name[i]))
    {
      if id <= kMaxStaticPayloadId || codec.id <= kMaxStaticPayloadId then id == codec.id
      else CodecNamesEq(name, codec.name)
    }

    /** `Codec::GetParam(name, std::string*)`. */
    function GetParam(key: string): (r: Option<string>)
      reads this
      ensures r.Some? <==> key in params
      ensures r.Some? ==> r.value == params[key]
    {
      if key in params then Some(params[key]) else None
    }

    /** `Codec::GetParam(name, int*)`: present and parses as a decimal integer. */
    function GetIntParam(key: string): (r: Option<int>)
      reads this
      ensures r.Some? ==> key in params && ParseInt(params[key]) == r
      ensures key in params && ParseInt(params[key]).Some? ==> r.Some?
    {
      if key in params then ParseInt(params[key]) else None
    }

    /** `Codec::SetParam(name, std::string)`: insert or overwrite one key. */
    method SetParam(key: string, value: string)
      modifies this
      ensures params == old(params)[key := value]
      ensures GetParam(key) == Some(value)
    {
      params := params[key := value];
    }

    /** `Codec::SetParam(name, int)`: stores the decimal form, which reads back as `value`. */
    method SetIntParam(key: string, value: int)
      modifies this
      ensures params == old(params)[key := FormatInt(value)]
      ensures GetIntParam(key) == Some(value)
    {
      params := params[key := FormatInt(value)];
      IntRoundTrip(value);
    }

    /** `Codec::RemoveParam`: true iff the key was there; it is gone afterwards. */
    method RemoveParam(key: string) returns (removed: bool)
      modifies this
      ensures removed <==> key in old(params)
      ensures params == old(params) - {key}
      ensures GetParam(key) == None
    {
      removed := key in params;
      params := params - {key};
    }
  }

  lemma MatchesReflexive(a: Codec)
    ensures a.Matches(a)
  {
    EqualsIgnoreCaseReflexive(a.name);
  }

  /** `Codec::Matches` does not depend on which side is asked. */
  lemma MatchesSymmetric(a: Codec, b: Codec)
    ensures a.Matches(b) <==> b.Matches(a)
  {
    EqualsIgnoreCaseSymmetric(a.name, b.name);
  }

  /** Matching is transitive, so it partitions codecs into classes. */
  lemma MatchesTransitive(a: Codec, b: Codec, c: Codec)
    requires a.Matches(b) && b.Matches(c)
    ensures a.Matches(c)
  {
    if a.id > kMaxStaticPayloadId && b.id > kMaxStaticPayloadId && c.id > kMaxStaticPayloadId {
      EqualsIgnoreCaseTransitive(a.name, b.name, c.name);
    }
  }

  /** An omitted channel count (0) means one channel (RFC 4566, section 6). */
  function ChannelCount(channels: nat): nat
  {
    if channels == 0 then 1 else channels
  }

  /** `AudioCodec`: a codec with a bitrate and a channel count. */
  class AudioCodec {
    const base: Codec
    const bitrate: int
    const channels: nat

    constructor (id: int, name: string, clockrate: int, bitrate: int, channels: nat)
      ensures fresh(base) && base.id == id && base.name == name && base.clockrate == clockrate
      ensures base.params == map[]
      ensures this.bitrate == bitrate && this.channels == channels
    {
      base := new Codec(id, name, clockrate);
      this.bitrate := bitrate;
      this.channels := channels;
    }

    /**
     * `AudioCodec::Matches`: base match; `codec`'s zero clock rate and zero
     * bitrate are wildcards, as is our own non-positive (VBR) bitrate;
     * channel counts 0 and 1 both mean mono (RFC 4566, section 6).
     */
    function Matches(codec: AudioCodec): (r: bool)
      ensures r <==> && base.Matches(codec.base)
                     && (codec.base.clockrate == 0 || base.clockrate == codec.base.clockrate)
                     && (codec.bitrate == 0 || bitrate <= 0 || bitrate == codec.bitrate)
                     && ChannelCount(channels) == ChannelCount(codec.channels)
    {
      base.Matches(codec.base) &&
      (codec.base.clockrate == 0 || base.clockrate == codec.base.clockrate) &&
      (codec.bitrate == 0 || bitrate <= 0 || bitrate == codec.bitrate) &&
      ((codec.channels < 2 && channels < 2) || channels == codec.channels)
    }
  }

  lemma AudioMatchesReflexive(a: AudioCodec)
    ensures a.Matches(a)
  {
    MatchesReflexive(a.base);
  }

  /** Audio matching is the base match narrowed by clock rate, bitrate and channels. */
  lemma AudioMatchesRefinesBase(a: AudioCodec, b: AudioCodec)
    requires a.Matches(b)
    ensures b.base.Matches(a.base)
    ensures b.base.clockrate == 0 || a.base.clockrate == b.base.clockrate
    ensures a.channels == b.channels || (a.channels <= 1 && b.channels <= 1)
  {
    MatchesSymmetric(a.base, b.base);
  }

  /** Channel count 0 and channel count 1 are interchangeable on either side. */
  lemma AudioMatchesMonoChannels(a: AudioCodec, b: AudioCodec, c: AudioCodec)
    requires b.base == c.base && b.bitrate == c.bitrate
    requires b.channels <= 1 && c.channels <= 1
    ensures a.Matches(b) <==> a.Matches(c)
    ensures b.Matches(a) <==> c.Matches(a)
  {
  }

  /**
   * The clock-rate wildcard is one-sided: a codec that leaves its clock rate
   * at 0 is matched by one that names it, but not the other way round.
   */
  lemma AudioMatchesClockrateWildcardOneSided(a: AudioCodec, b: AudioCodec)
    requires a.base.Matches(b.base) && a.bitrate == b.bitrate && a.channels == b.channels
    requires a.base.clockrate != 0 && b.base.clockrate == 0
    ensures a.Matches(b) && !b.Matches(a)
  {
  }

  // ---------------------------------------------------------------------------
  // Video codecs

  /** `VideoCodec::CodecType`. */
  datatype CodecType = CodecRed | CodecUlpfec | CodecFlexfec | CodecRtx | CodecVideo

  /** `webrtc::VideoCodecType`, as far as `CodecTypeFromName` distinguishes it. */
  datatype VideoCodecType = VideoCodecVP8 | VideoCodecVP9 | VideoCodecH264 | VideoCodecUnknown

  /** The four special video names are pairwise different, ignoring case. */
  lemma SpecialNamesDistinct(name: string)
    ensures CodecNamesEq(name, kRedCodecName) ==>
              !CodecNamesEq(name, kUlpfecCodecName) && !CodecNamesEq(name, kFlexfecCodecName) &&
              !CodecNamesEq(name, kRtxCodecName)
    ensures CodecNamesEq(name, kUlpfecCodecName) ==>
              !CodecNamesEq(name, kFlexfecCodecName) && !CodecNamesEq(name, kRtxCodecName)
    ensures CodecNamesEq(name, kFlexfecCodecName) ==> !CodecNamesEq(name, kRtxCodecName)
  {
    // "red" and "rtx" differ in their second letter.
    if CodecNamesEq(name, kRedCodecName) { assert Lower(name[1]) == 'e'; }
    if CodecNamesEq(name, kRtxCodecName) { assert Lower(name[1]) == 't'; }
  }

  /** "VP8", "VP9" and "H264" are pairwise different, ignoring case. */
  lemma VideoFormatNamesDistinct(name: string)
    ensures CodecNamesEq(name, kVp8CodecName) ==>
              !CodecNamesEq(name, kVp9CodecName) && !CodecNamesEq(name, kH264CodecName)
    ensures CodecNamesEq(name, kVp9CodecName) ==> !CodecNamesEq(name, kH264CodecName)
  {
    // "VP8" and "VP9" differ in their last character.
    if CodecNamesEq(name, kVp8CodecName) { assert Lower(name[2]) == '8'; }
    if CodecNamesEq(name, kVp9CodecName) { assert Lower(name[2]) == '9'; }
  }

  /**
   * `CodecTypeFromName`: each format is recognised exactly when the name
   * equals its constant up to case.
   */
  function CodecTypeFromName(name: string): (r: VideoCodecType)
    ensures r == VideoCodecVP8 <==> CodecNamesEq(name, kVp8CodecName)
    ensures r == VideoCodecVP9 <==> CodecNamesEq(name, kVp9CodecName)
    ensures r == VideoCodecH264 <==> CodecNamesEq(name, kH264CodecName)
  {
    VideoFormatNamesDistinct(name);
    if CodecNamesEq(name, kVp8CodecName) then VideoCodecVP8
    else if CodecNamesEq(name, kVp9CodecName) then VideoCodecVP9
    else if CodecNamesEq(name, kH264CodecName) then VideoCodecH264
    else VideoCodecUnknown
  }

  /** `VideoCodec`: a codec on the 90 kHz video clock. */
  class VideoCodec {
    const base: Codec

    constructor (id: int, name: string)
      ensures fresh(base) && base.id == id && base.name == name
      ensures base.clockrate == kVideoCodecClockrate && base.params == map[]
    {
      base := new Codec(id, name, kVideoCodecClockrate);
    }

    /**
     * `VideoCodec::GetCodecType`: each special type is reported exactly when
     * the name equals its constant up to case; anything else is plain video.
     */
    function GetCodecType(): (r: CodecType)
      ensures r == CodecRed <==> CodecNamesEq(base.name, kRedCodecName)
      ensures r == CodecUlpfec <==> CodecNamesEq(base.name, kUlpfecCodecName)
      ensures r == CodecFlexfec <==> CodecNamesEq(base.name, kFlexfecCodecName)
      ensures r == CodecRtx <==> CodecNamesEq(base.name, kRtxCodecName)
    {
      SpecialNamesDistinct(base.name);
      if CodecNamesEq(base.name, kRedCodecName) then CodecRed
      else if CodecNamesEq(base.name, kUlpfecCodecName) then CodecUlpfec
      else if CodecNamesEq(base.name, kFlexfecCodecName) then CodecFlexfec
      else if CodecNamesEq(base.name, kRtxCodecName) then CodecRtx
      else CodecVideo
    }

    /**
     * `VideoCodec::ValidateCodecFormat`: the payload type must fit in 7 bits;
     * a plain video codec is also rejected when both bitrate limits parse
     * and the maximum is below the minimum.
     */
    function ValidateCodecFormat(): (r: bool)
      reads base
      ensures !(0 <= base.id <= kMaxPayloadId) ==> !r
      ensures 0 <= base.id <= kMaxPayloadId && GetCodecType() != CodecVideo ==> r
      ensures 0 <= base.id <= kMaxPayloadId && GetCodecType() == CodecVideo ==>
                (!r <==> kCodecParamMinBitrate in base.params && kCodecParamMaxBitrate in base.params &&
                         ParseInt(base.params[kCodecParamMinBitrate]).Some? &&
                         ParseInt(base.params[kCodecParamMaxBitrate]).Some? &&
                         ParseInt(base.params[kCodecParamMaxBitrate]).value <
                           ParseInt(base.params[kCodecParamMinBitrate]).value)
    {
      if base.id < 0 || base.id > kMaxPayloadId then false
      else if GetCodecType() != CodecVideo then true
      else
        var minBitrate := base.GetIntParam(kCodecParamMinBitrate);
        var maxBitrate := base.GetIntParam(kCodecParamMaxBitrate);
        !(minBitrate.Some? && maxBitrate.Some? && maxBitrate.value < minBitrate.value)
    }

    /** `VideoCodec::CreateRtxCodec`: an "rtx" codec pointing at its media payload type. */
    static method CreateRtxCodec(rtxPayloadType: int, associatedPayloadType: int) returns (rtx: VideoCodec)
      ensures fresh(rtx) && fresh(rtx.base)
      ensures rtx.base.id == rtxPayloadType && rtx.base.name == kRtxCodecName
      ensures rtx.base.clockrate == kVideoCodecClockrate
      ensures rtx.base.params == map[kCodecParamAssociatedPayloadType := FormatInt(associatedPayloadType)]
      ensures rtx.GetCodecType() == CodecRtx
      ensures rtx.base.GetIntParam(kCodecParamAssociatedPayloadType) == Some(associatedPayloadType)
      ensures rtx.ValidateCodecFormat() <==> 0 <= rtxPayloadType <= kMaxPayloadId
    {
      rtx := new VideoCodec(rtxPayloadType, kRtxCodecName);
      rtx.base.SetIntParam(kCodecParamAssociatedPayloadType, associatedPayloadType);
      EqualsIgnoreCaseReflexive(kRtxCodecName);
    }
  }

  /** Classification depends on the name only up to case. */
  lemma GetCodecTypeIgnoresCase(v: VideoCodec, w: VideoCodec)
    requires CodecNamesEq(v.base.name, w.base.name)
    ensures v.GetCodecType() == w.GetCodecType()
  {
    var a, b := v.base.name, w.base.name;
    EqualsIgnoreCaseSymmetric(a, b);
    forall c | c in [kRedCodecName, kUlpfecCodecName, kFlexfecCodecName, kRtxCodecName]
      ensures CodecNamesEq(a, c) <==> CodecNamesEq(b, c)
    {
      if CodecNamesEq(a, c) { EqualsIgnoreCaseTransitive(b, a, c); }
      if CodecNamesEq(b, c) { EqualsIgnoreCaseTransitive(a, b, c); }
    }
  }

  /**
   * For a plain video codec with a valid payload type whose bitrate limits
   * were stored with `SetParam(name, int)`, validation holds iff min <= max.
   */
  lemma ValidateBitrateLimits(v: VideoCodec, minBitrate: int, maxBitrate: int)
    requires 0 <= v.base.id <= kMaxPayloadId && v.GetCodecType() == CodecVideo
    requires kCodecParamMinBitrate in v.base.params && kCodecParamMaxBitrate in v.base.params
    requires v.base.params[kCodecParamMinBitrate] == FormatInt(minBitrate)
    requires v.base.params[kCodecParamMaxBitrate] == FormatInt(maxBitrate)
    ensures v.ValidateCodecFormat() <==> minBitrate <= maxBitrate
  {
    IntRoundTrip(minBitrate);
    IntRoundTrip(maxBitrate);
  }

  /** `IsCodecSupported`: some supported codec has the same name up to case. */
  function IsCodecSupported(supportedCodecs: seq<VideoCodec>, codec: VideoCodec): (r: bool)
    ensures r <==> exists i :: 0 <= i < |supportedCodecs| &&
                                 CodecNamesEq(codec.base.name, supportedCodecs[i].base.name)
  {
    if supportedCodecs == [] then false
    else if CodecNamesEq(codec.base.name, supportedCodecs[0].base.name) then true
    else
      var rest := IsCodecSupported(supportedCodecs[1..], codec);
      assert forall i :: 1 <= i < |supportedCodecs| ==> supportedCodecs[i] == supportedCodecs[1..][i - 1];
      rest
  }

  /** Support is decided by name up to case: codecs with equal names agree. */
  lemma IsCodecSupportedIgnoresCase(supportedCodecs: seq<VideoCodec>, a: VideoCodec, b: VideoCodec)
    requires CodecNamesEq(a.base.name, b.base.name)
    ensures IsCodecSupported(supportedCodecs, a) <==> IsCodecSupported(supportedCodecs, b)
  {
    EqualsIgnoreCaseSymmetric(a.base.name, b.base.name);
    forall i | 0 <= i < |supportedCodecs|
      ensures CodecNamesEq(a.base.name, supportedCodecs[i].base.name) <==>
              CodecNamesEq(b.base.name, supportedCodecs[i].base.name)
    {
      var s := supportedCodecs[i].base.name;
      if CodecNamesEq(a.base.name, s) { EqualsIgnoreCaseTransitive(b.base.name, a.base.name, s); }
      if CodecNamesEq(b.base.name, s) { EqualsIgnoreCaseTransitive(a.base.name, b.base.name, s); }
    }
  }
}
