/** PathPolicy of lib.path_store: the admission gate for path segments and the
    store's capacity settings, and its loading from a configuration mapping.
    The clock is a parameter `now`. */
module PathPolicies {
  import opened Wrappers
  import opened ConfigText
  import opened Segments

  /** A property range: an empty list (no constraint) or an inclusive (min, max). */
  datatype Range = Unconstrained | Bounds(min: int, max: int)

  /** An (ISD, AD) pair the operator does not want any path to traverse. */
  datatype IsdAd = IsdAd(isd_id: int, ad_id: int)

  datatype PathPolicy = PathPolicy(
    best_set_size: nat,
    candidates_set_size: nat,
    history_limit: nat,
    update_after_number: nat,
    update_after_time: nat,
    unwanted_ads: seq<IsdAd>,
    property_ranges: map<string, Range>,
    property_weights: map<string, real>
  )

  /** PathPolicy(): the defaults. */
  function DefaultPolicy(): PathPolicy
  {
    PathPolicy(5, 20, 0, 0, 0, [], map[], map[])
  }

  /** The six properties _check_property_ranges recognises, by configuration key. */
  datatype Property =
    | PeerLinks | HopsLength | DelayTime
    | GuaranteedBandwidth | AvailableBandwidth | TotalBandwidth

  const AllProperties: seq<Property> :=
    [PeerLinks, HopsLength, DelayTime, GuaranteedBandwidth, AvailableBandwidth, TotalBandwidth]

  function Key(p: Property): string
  {
    match p
    case PeerLinks => "PeerLinks"
    case HopsLength => "HopsLength"
    case DelayTime => "DelayTime"
    case GuaranteedBandwidth => "GuaranteedBandwidth"
    case AvailableBandwidth => "AvailableBandwidth"
    case TotalBandwidth => "TotalBandwidth"
  }

  /** The fixed value the three bandwidth properties are checked against in
      place of a bandwidth read from the segment. */
  const BandwidthPlaceholder: int := 10

  /** The value a property has for a segment at time `now`: live counts for
      peer links and hops, the age of the segment for the delay, and the
      placeholder for every bandwidth. */
  function PropertyValue(p: Property, pcb: PathSegment, now: int): int
  {
    match p
    case PeerLinks => pcb.n_peer_links
    case HopsLength => pcb.n_hops
    case DelayTime => now - pcb.timestamp
    case _ => BandwidthPlaceholder
  }

  /** The configured range of a property; a missing key constrains nothing. */
  function RangeOf(pol: PathPolicy, p: Property): Range
  {
    if Key(p) in pol.property_ranges then pol.property_ranges[Key(p)] else Unconstrained
  }

  /** Inclusive range membership; an empty range accepts every value. */
  predicate InRange(r: Range, v: int)
  {
    r.Unconstrained? || r.min <= v <= r.max
  }

  /** _check_unwanted_ads over a hop list: false as soon as one hop's
      (isd_id, ad_id) is unwanted. */
  function CheckUnwantedAds(unwanted: seq<IsdAd>, ads: seq<Hop>): (ok: bool)
    ensures ok <==> forall i :: 0 <= i < |ads| ==> IsdAd(ads[i].isd_id, ads[i].ad_id) !in unwanted
  {
    if ads == [] then true
    else IsdAd(ads[0].isd_id, ads[0].ad_id) !in unwanted && CheckUnwantedAds(unwanted, ads[1..])
  }

  /** _check_property_ranges over a list of properties: every constrained
      property of the list must lie in its range. */
  function CheckRanges(pol: PathPolicy, pcb: PathSegment, now: int, props: seq<Property>): (ok: bool)
    ensures ok <==> forall i :: 0 <= i < |props| ==> InRange(RangeOf(pol, props[i]), PropertyValue(props[i], pcb, now))
  {
    if props == [] then true
    else InRange(RangeOf(pol, props[0]), PropertyValue(props[0], pcb, now)) && CheckRanges(pol, pcb, now, props[1..])
  }

  /** _check_property_ranges: all six recognised properties. */
  function CheckPropertyRanges(pol: PathPolicy, pcb: PathSegment, now: int): (ok: bool)
    ensures ok <==> forall p: Property :: InRange(RangeOf(pol, p), PropertyValue(p, pcb, now))
  {
    CheckRangesCoversAll(pol, pcb, now);
    CheckRanges(pol, pcb, now, AllProperties)
  }

  lemma CheckRangesCoversAll(pol: PathPolicy, pcb: PathSegment, now: int)
    ensures CheckRanges(pol, pcb, now, AllProperties) <==>
            forall p: Property :: InRange(RangeOf(pol, p), PropertyValue(p, pcb, now))
  {
    forall p: Property
      ensures CheckRanges(pol, pcb, now, AllProperties) ==> InRange(RangeOf(pol, p), PropertyValue(p, pcb, now))
    {
      var i := PropertyIndex(p);
      assert AllProperties[i] == p;
    }
  }

  function PropertyIndex(p: Property): (i: nat)
    ensures i < |AllProperties| && AllProperties[i] == p
  {
    match p
    case PeerLinks => 0
    case HopsLength => 1
    case DelayTime => 2
    case GuaranteedBandwidth => 3
    case AvailableBandwidth => 4
    case TotalBandwidth => 5
  }

  /** The warning check_filters logs when a sub-check fails. */
  datatype Warning = UnwantedAdsWarning | PropertyRangesWarning

  /** The verdict of check_filters and the warnings it logged. */
  datatype FilterResult = FilterResult(ok: bool, warnings: seq<Warning>)

  /** check_filters: the unwanted-AD check first, then the range check; a
      failing check logs one warning naming it. */
  function CheckFilters(pol: PathPolicy, pcb: PathSegment, now: int): (r: FilterResult)
    ensures r.ok <==> CheckUnwantedAds(pol.unwanted_ads, pcb.ads) && CheckPropertyRanges(pol, pcb, now)
    ensures r.ok <==> r.warnings == []
    ensures |r.warnings| <= 1
    ensures !CheckUnwantedAds(pol.unwanted_ads, pcb.ads) ==> r.warnings == [UnwantedAdsWarning]
    ensures CheckUnwantedAds(pol.unwanted_ads, pcb.ads) && !CheckPropertyRanges(pol, pcb, now) ==>
              r.warnings == [PropertyRangesWarning]
  {
    if !CheckUnwantedAds(pol.unwanted_ads, pcb.ads) then FilterResult(false, [UnwantedAdsWarning])
    else if !CheckPropertyRanges(pol, pcb, now) then FilterResult(false, [PropertyRangesWarning])
    else FilterResult(true, [])
  }

  /** The default policy has no unwanted ADs and no ranges, so it admits every
      segment at every time, silently. */
  lemma DefaultPolicyAdmitsAll(pcb: PathSegment, now: int)
    ensures CheckFilters(DefaultPolicy(), pcb, now) == FilterResult(true, [])
  {
  }

  /** A segment through an unwanted AD is rejected whatever its other properties. */
  lemma UnwantedAdRejected(pol: PathPolicy, pcb: PathSegment, now: int, i: nat)
    requires i < |pcb.ads| && IsdAd(pcb.ads[i].isd_id, pcb.ads[i].ad_id) in pol.unwanted_ads
    ensures !CheckFilters(pol, pcb, now).ok
  {
  }

  /** With one property constrained, a segment passes exactly when that
      property's value lies between the bounds, both bounds included. */
  lemma SingleRangeInclusive(pol: PathPolicy, p: Property, pcb: PathSegment, now: int)
    requires RangeOf(pol, p).Bounds?
    requires forall q: Property :: q != p ==> RangeOf(pol, q).Unconstrained?
    ensures CheckPropertyRanges(pol, pcb, now) <==>
            RangeOf(pol, p).min <= PropertyValue(p, pcb, now) <= RangeOf(pol, p).max
  {
  }

  /** The bandwidth properties read the placeholder, never the segment or the clock. */
  lemma BandwidthIgnoresSegment(p: Property, pcb1: PathSegment, now1: int, pcb2: PathSegment, now2: int)
    requires p in {GuaranteedBandwidth, AvailableBandwidth, TotalBandwidth}
    ensures PropertyValue(p, pcb1, now1) == PropertyValue(p, pcb2, now2)
  {
  }

  /** A policy that constrains one property key and nothing else. */
  function OnlyRange(p: Property, min: int, max: int): PathPolicy
  {
    DefaultPolicy().(property_ranges := map[Key(p) := Bounds(min, max)])
  }

  /** A policy constraining one property accepts exactly the segments whose
      value of that property lies between the bounds. */
  lemma OnlyRangeInclusive(p: Property, min: int, max: int, pcb: PathSegment, now: int)
    ensures CheckPropertyRanges(OnlyRange(p, min, max), pcb, now) <==> min <= PropertyValue(p, pcb, now) <= max
  {
    forall q: Property | q != p ensures RangeOf(OnlyRange(p, min, max), q).Unconstrained? {
      KeyInjective(q, p);
    }
    SingleRangeInclusive(OnlyRange(p, min, max), p, pcb, now);
  }

  /** The unit-test vectors of _check_property_ranges: peer links and hops in
      [0, 2] accept 1 and reject 3; a delay range [0, 2] at time 2 accepts a
      segment stamped 1 and rejects one stamped 3; every bandwidth key accepts
      [0, 20] and rejects [0, 9] whatever the segment. */
  lemma PropertyRangeExamples(pcb: PathSegment, p: Property)
    requires p in {GuaranteedBandwidth, AvailableBandwidth, TotalBandwidth}
    ensures CheckPropertyRanges(OnlyRange(PeerLinks, 0, 2), pcb.(n_peer_links := 1), 0)
    ensures !CheckPropertyRanges(OnlyRange(PeerLinks, 0, 2), pcb.(n_peer_links := 3), 0)
    ensures CheckPropertyRanges(OnlyRange(HopsLength, 0, 2), pcb.(n_hops := 1), 0)
    ensures !CheckPropertyRanges(OnlyRange(HopsLength, 0, 2), pcb.(n_hops := 3), 0)
    ensures CheckPropertyRanges(OnlyRange(DelayTime, 0, 2), pcb.(timestamp := 1), 2)
    ensures !CheckPropertyRanges(OnlyRange(DelayTime, 0, 2), pcb.(timestamp := 3), 2)
    ensures CheckPropertyRanges(OnlyRange(p, 0, 20), pcb, 0)
    ensures !CheckPropertyRanges(OnlyRange(p, 0, 9), pcb, 0)
  {
    OnlyRangeInclusive(PeerLinks, 0, 2, pcb.(n_peer_links := 1), 0);
    OnlyRangeInclusive(PeerLinks, 0, 2, pcb.(n_peer_links := 3), 0);
    OnlyRangeInclusive(HopsLength, 0, 2, pcb.(n_hops := 1), 0);
    OnlyRangeInclusive(HopsLength, 0, 2, pcb.(n_hops := 3), 0);
    OnlyRangeInclusive(DelayTime, 0, 2, pcb.(timestamp := 1), 2);
    OnlyRangeInclusive(DelayTime, 0, 2, pcb.(timestamp := 3), 2);
    OnlyRangeInclusive(p, 0, 20, pcb, 0);
    OnlyRangeInclusive(p, 0, 9, pcb, 0);
  }

  lemma KeyInjective(q: Property, r: Property)
    requires q != r
    ensures Key(q) != Key(r)
  {
    if |Key(q)| == |Key(r)| {
      assert Key(q)[0] != Key(r)[0];
    }
  }

  /** The configuration mapping parse_dict reads; the numeric settings and the
      weights are copied through, the two string-valued entries are parsed. */
  datatype PolicyConfig = PolicyConfig(
    BestSetSize: nat,
    CandidatesSetSize: nat,
    HistoryLimit: nat,
    UpdateAfterNumber: nat,
    UpdateAfterTime: nat,
    UnwantedADs: string,
    PropertyRanges: map<string, string>,
    PropertyWeights: map<string, real>
  )

  datatype ConfigError = MalformedPair(token: string) | MalformedRange

  /** A "min-max" (or "isd-ad") token: two decimal numerals around the first '-'. */
  function ParsePair(s: string): (r: Result<(nat, nat), ConfigError>)
  {
    match FindChar(s, '-')
    case None => Failure(MalformedPair(s))
    case Some(i) =>
      if IsNumeral(s[..i]) && IsNumeral(s[i + 1..]) then Success((NumeralValue(s[..i]), NumeralValue(s[i + 1..])))
      else Failure(MalformedPair(s))
  }

  function FormatPair(a: nat, b: nat): string
  {
    Numeral(a) + "-" + Numeral(b)
  }

  lemma ParsePairRoundTrip(a: nat, b: nat)
    ensures ParsePair(FormatPair(a, b)) == Success((a, b))
  {
    var s := FormatPair(a, b);
    assert '-' !in Numeral(a) by {
      assert forall i :: 0 <= i < |Numeral(a)| ==> IsDigit(Numeral(a)[i]);
    }
    FindCharAfter(Numeral(a), '-', Numeral(b));
    assert s[..|Numeral(a)|] == Numeral(a);
    assert s[|Numeral(a)| + 1..] == Numeral(b);
    NumeralRoundTrip(a);
    NumeralRoundTrip(b);
  }

  /** The tokens of UnwantedADs, each an "isd-ad" pair. */
  function ParseAdTokens(tokens: seq<string>): (r: Result<seq<IsdAd>, ConfigError>)
    ensures r.Success? ==> |r.value| == |tokens|
  {
    if tokens == [] then Success([])
    else match ParsePair(tokens[0])
      case Failure(e) => Failure(e)
      case Success((isd, ad)) =>
        match ParseAdTokens(tokens[1..])
        case Failure(e) => Failure(e)
        case Success(rest) => Success([IsdAd(isd, ad)] + rest)
  }

  /** UnwantedADs: a comma-separated list of "isd-ad" pairs; the empty string
      lists none. */
  function ParseUnwantedAds(s: string): Result<seq<IsdAd>, ConfigError>
  {
    if s == "" then Success([]) else ParseAdTokens(Split(s, ','))
  }

  /** PropertyRanges: every "min-max" value becomes an inclusive range under
      the same key; one malformed value fails the load. */
  function ParseRanges(m: map<string, string>): (r: Result<map<string, Range>, ConfigError>)
    ensures r.Success? <==> forall k :: k in m ==> ParsePair(m[k]).Success?
    ensures r.Success? ==>
              && r.value.Keys == m.Keys
              && forall k :: k in m ==> r.value[k] == Bounds(ParsePair(m[k]).value.0, ParsePair(m[k]).value.1)
  {
    if exists k :: k in m && ParsePair(m[k]).Failure? then Failure(MalformedRange)
    else Success(map k | k in m :: Bounds(ParsePair(m[k]).value.0, ParsePair(m[k]).value.1))
  }

  /** parse_dict (through from_dict, on a fresh policy): the settings and the
      weights are copied, every range and every unwanted AD is parsed, and one
      malformed token fails the whole load. */
  function ParseDict(cfg: PolicyConfig): (r: Result<PathPolicy, ConfigError>)
    ensures r.Success? <==> ParseUnwantedAds(cfg.UnwantedADs).Success?
                            && forall k :: k in cfg.PropertyRanges ==> ParsePair(cfg.PropertyRanges[k]).Success?
    ensures r.Success? ==>
              && r.value.best_set_size == cfg.BestSetSize
              && r.value.candidates_set_size == cfg.CandidatesSetSize
              && r.value.history_limit == cfg.HistoryLimit
              && r.value.update_after_number == cfg.UpdateAfterNumber
              && r.value.update_after_time == cfg.UpdateAfterTime
              && r.value.property_weights == cfg.PropertyWeights
              && ParseUnwantedAds(cfg.UnwantedADs) == Success(r.value.unwanted_ads)
              && r.value.property_ranges.Keys == cfg.PropertyRanges.Keys
              && (forall k :: k in cfg.PropertyRanges ==>
                    r.value.property_ranges[k] == Bounds(ParsePair(cfg.PropertyRanges[k]).value.0,
                                                         ParsePair(cfg.PropertyRanges[k]).value.1))
  {
    match ParseUnwantedAds(cfg.UnwantedADs)
    case Failure(e) => Failure(e)
    case Success(ads) =>
      match ParseRanges(cfg.PropertyRanges)
      case Failure(e) => Failure(e)
      case Success(ranges) =>
        Success(PathPolicy(cfg.BestSetSize, cfg.CandidatesSetSize, cfg.HistoryLimit,
                           cfg.UpdateAfterNumber, cfg.UpdateAfterTime, ads, ranges, cfg.PropertyWeights))
  }

  /** A policy whose ranges and unwanted ADs use non-negative numbers can be
      written out as a configuration. */
  predicate Writable(pol: PathPolicy)
  {
    && (forall k :: k in pol.property_ranges ==>
          pol.property_ranges[k].Bounds? && pol.property_ranges[k].min >= 0 && pol.property_ranges[k].max >= 0)
    && (forall i :: 0 <= i < |pol.unwanted_ads| ==> pol.unwanted_ads[i].isd_id >= 0 && pol.unwanted_ads[i].ad_id >= 0)
  }

  function FormatAds(ads: seq<IsdAd>): string
    requires forall i :: 0 <= i < |ads| ==> ads[i].isd_id >= 0 && ads[i].ad_id >= 0
  {
    if ads == [] then "" else Join(FormatAdTokens(ads), ',')
  }

  function FormatAdTokens(ads: seq<IsdAd>): (tokens: seq<string>)
    requires forall i :: 0 <= i < |ads| ==> ads[i].isd_id >= 0 && ads[i].ad_id >= 0
    ensures |tokens| == |ads|
    ensures forall i :: 0 <= i < |ads| ==> tokens[i] == FormatPair(ads[i].isd_id, ads[i].ad_id)
  {
    if ads == [] then [] else [FormatPair(ads[0].isd_id, ads[0].ad_id)] + FormatAdTokens(ads[1..])
  }

  /** The configuration that describes a writable policy. */
  function FormatPolicy(pol: PathPolicy): PolicyConfig
    requires Writable(pol)
  {
    PolicyConfig(pol.best_set_size, pol.candidates_set_size, pol.history_limit,
                 pol.update_after_number, pol.update_after_time,
                 FormatAds(pol.unwanted_ads), FormatRanges(pol.property_ranges), pol.property_weights)
  }

  /** Every bounded range written as "min-max" under its key. */
  function FormatRanges(ranges: map<string, Range>): (m: map<string, string>)
    requires forall k :: k in ranges ==> ranges[k].Bounds? && ranges[k].min >= 0 && ranges[k].max >= 0
    ensures m.Keys == ranges.Keys
    ensures forall k :: k in m ==> m[k] == FormatPair(ranges[k].min, ranges[k].max)
  {
    map k | k in ranges :: FormatPair(ranges[k].min, ranges[k].max)
  }

  lemma {:induction false} ParseAdTokensRoundTrip(ads: seq<IsdAd>)
    requires forall i :: 0 <= i < |ads| ==> ads[i].isd_id >= 0 && ads[i].ad_id >= 0
    ensures ParseAdTokens(FormatAdTokens(ads)) == Success(ads)
  {
    if ads != [] {
      var tokens := FormatAdTokens(ads);
      ParsePairRoundTrip(ads[0].isd_id, ads[0].ad_id);
      assert tokens[1..] == FormatAdTokens(ads[1..]);
      ParseAdTokensRoundTrip(ads[1..]);
      assert [ads[0]] + ads[1..] == ads;
    }
  }

  lemma ParseUnwantedAdsRoundTrip(ads: seq<IsdAd>)
    requires forall i :: 0 <= i < |ads| ==> ads[i].isd_id >= 0 && ads[i].ad_id >= 0
    ensures ParseUnwantedAds(FormatAds(ads)) == Success(ads)
  {
    if ads != [] {
      var tokens := FormatAdTokens(ads);
      forall i | 0 <= i < |tokens| ensures ',' !in tokens[i] {
        NoCommaInPair(ads[i].isd_id, ads[i].ad_id);
      }
      SplitJoin(tokens, ',');
      ParseAdTokensRoundTrip(ads);
      assert |Join(tokens, ',')| > 0 by {
        JoinStartsWith(tokens, ',');
        assert |tokens[0]| > 0 by { assert |Numeral(ads[0].isd_id)| > 0; }
      }
    }
  }

  lemma NoCommaInPair(a: nat, b: nat)
    ensures ',' !in FormatPair(a, b)
  {
    var s := FormatPair(a, b);
    assert forall j :: 0 <= j < |Numeral(a)| ==> IsDigit(Numeral(a)[j]);
    assert forall j :: 0 <= j < |Numeral(b)| ==> IsDigit(Numeral(b)[j]);
    assert forall j :: 0 <= j < |s| ==> s[j] != ',' by {
      forall j | 0 <= j < |s| ensures s[j] != ',' {
        if j < |Numeral(a)| {
          assert s[j] == Numeral(a)[j];
        } else if j > |Numeral(a)| {
          assert s[j] == Numeral(b)[j - |Numeral(a)| - 1];
        }
      }
    }
  }

  lemma JoinStartsWith(parts: seq<string>, c: char)
    requires |parts| > 0
    ensures |Join(parts, c)| >= |parts[0]|
  {
  }

  /** Loading the written-out ranges gives the ranges back. */
  lemma ParseRangesRoundTrip(ranges: map<string, Range>)
    requires forall k :: k in ranges ==> ranges[k].Bounds? && ranges[k].min >= 0 && ranges[k].max >= 0
    ensures ParseRanges(FormatRanges(ranges)) == Success(ranges)
  {
    var m := FormatRanges(ranges);
    forall k | k in m ensures ParsePair(m[k]) == Success((ranges[k].min, ranges[k].max)) {
      ParsePairRoundTrip(ranges[k].min, ranges[k].max);
    }
    ParseRangesOf(m, ranges);
  }

  lemma ParseRangesOf(m: map<string, string>, ranges: map<string, Range>)
    requires m.Keys == ranges.Keys
    requires forall k :: k in m ==> ranges[k].Bounds? && ParsePair(m[k]) == Success((ranges[k].min, ranges[k].max))
    ensures ParseRanges(m) == Success(ranges)
  {
    var r := ParseRanges(m).value;
    assert forall k :: k in r ==> r[k] == ranges[k];
    assert r == ranges;
  }

  /** Loading the written-out configuration gives the policy back. */
  lemma ParseDictRoundTrip(pol: PathPolicy)
    requires Writable(pol)
    ensures ParseDict(FormatPolicy(pol)) == Success(pol)
  {
    var cfg := FormatPolicy(pol);
    ParseUnwantedAdsRoundTrip(pol.unwanted_ads);
    ParseRangesRoundTrip(pol.property_ranges);
  }

  /** The unit-test vectors of parse_dict for PropertyRanges: "1-11" and
      "2-12" load as (1, 11) and (2, 12). */
  lemma PairExamples()
    ensures FormatPair(1, 11) == "1-11" && ParsePair("1-11") == Success((1, 11))
    ensures FormatPair(2, 12) == "2-12" && ParsePair("2-12") == Success((2, 12))
  {
    PairExample(1, 11, '1');
    PairExample(2, 12, '2');
  }

  /** A pair of a one-digit number d and the two-digit 10 + d. */
  lemma PairExample(d: nat, n: nat, c: char)
    requires d < 10 && n == 10 + d && c == ('0' as int + d) as char
    ensures FormatPair(d, n) == [c, '-', '1', c] && ParsePair([c, '-', '1', c]) == Success((d, n))
  {
    assert Numeral(n) == Numeral(1) + [c];
    ParsePairRoundTrip(d, n);
  }
}
