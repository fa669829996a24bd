/** The channel-mask codec of the frame tensor data model
    (aux/src/TensorDMframe.cxx): `as_config` writes a channel-mask map as
    JSON, one object member per tag holding one member per channel, keyed
    by the channel's decimal string, whose value lists the masked bin
    ranges as two-element arrays; `as_cmm` reads it back.  Also the
    checks `as_frame` makes of trace tensor shapes and of trace data. */
module TensorDMframe {
  import opened Wrappers
  import opened Json

  /** `Waveform::BinRange`, a half-open tick range. */
  type BinRange = (Int32, Int32)

  /** `Waveform::ChannelMasks`: masked ranges by channel ident. */
  type ChannelMasks = map<Int32, seq<BinRange>>

  /** `Waveform::ChannelMaskMap`: channel masks by tag. */
  type ChannelMaskMap = map<string, ChannelMasks>

  /** The entry of `m` under `k`, or `d` when there is none: what C++
      `operator[]` of a map starts from. */
  function Slot<K, V>(m: map<K, V>, k: K, d: V): V
  {
    if k in m then m[k] else d
  }

  // ---------------------------------------------------------------
  // Writing.

  function EncodePair(p: BinRange): Json
  {
    Arr([Int(p.0), Int(p.1)])
  }

  function EncodeRanges(br: seq<BinRange>): Json
  {
    Arr(seq(|br|, i requires 0 <= i < |br| => EncodePair(br[i])))
  }

  /** `j` is what `as_config` writes for one tag's channel masks: an object
      with exactly one member per masked channel, under the channel's
      decimal string, holding the channel's ranges in order as
      `[first, second]` arrays. */
  ghost predicate EncodesCms(j: Json, cms: ChannelMasks)
  {
    && j.Obj?
    && (forall k | k in j.members :: exists c | c in cms :: k == Decimal(c))
    && (forall c | c in cms :: Decimal(c) in j.members && j.members[Decimal(c)] == EncodeRanges(cms[c]))
  }

  /** `j` is what `as_config` writes for a channel-mask map: an object with
      one member per tag, holding that tag's channel masks. */
  ghost predicate EncodesCmm(j: Json, cmm: ChannelMaskMap)
  {
    && j.Obj?
    && j.members.Keys == cmm.Keys
    && forall t | t in cmm :: EncodesCms(j.members[t], cmm[t])
  }

  /** `as_config(ChannelMasks)`: the ranges of each channel are appended as
      `[first, second]` pairs, then stored under the channel's decimal
      string.  The order the channels are taken in does not matter. */
  method AsConfigCms(cms: ChannelMasks) returns (ret: Json)
    ensures EncodesCms(ret, cms)
  {
    var members: map<string, Json> := map[];
    var todo := cms.Keys;
    while todo != {}
      invariant todo <= cms.Keys
      invariant forall k | k in members :: exists c | c in cms.Keys - todo :: k == Decimal(c)
      invariant forall c | c in cms.Keys - todo :: Decimal(c) in members && members[Decimal(c)] == EncodeRanges(cms[c])
      decreases |todo|
    {
      var chid :| chid in todo;
      var each := EncodeChannel(cms[chid]);
      forall c | c in cms.Keys - todo ensures Decimal(c) != Decimal(chid) {
        DecimalDistinct(c, chid);
      }
      members := members[Decimal(chid) := each];
      todo := todo - {chid};
    }
    ret := Obj(members);
  }

  /** The inner loop of `as_config(ChannelMasks)`. */
  method EncodeChannel(br: seq<BinRange>) returns (each: Json)
    ensures each == EncodeRanges(br)
  {
    var items: seq<Json> := [];
    for i := 0 to |br|
      invariant |items| == i && forall n | 0 <= n < i :: items[n] == EncodePair(br[n])
    {
      var pair: seq<Json> := [];
      pair := pair + [Int(br[i].0)];
      pair := pair + [Int(br[i].1)];
      items := items + [Arr(pair)];
    }
    each := Arr(items);
  }

  /** `as_config(ChannelMaskMap)`: one member per tag. */
  method AsConfigCmm(cmm: ChannelMaskMap) returns (ret: Json)
    ensures EncodesCmm(ret, cmm)
  {
    var members: map<string, Json> := map[];
    var todo := cmm.Keys;
    while todo != {}
      invariant todo <= cmm.Keys
      invariant members.Keys == cmm.Keys - todo
      invariant forall t | t in members :: EncodesCms(members[t], cmm[t])
      decreases |todo|
    {
      var tag :| tag in todo;
      var cms := AsConfigCms(cmm[tag]);
      members := members[tag := cms];
      todo := todo - {tag};
    }
    ret := Obj(members);
  }

  // ---------------------------------------------------------------
  // Reading.

  /** One `[first, second]` pair: both elements through `asInt`. */
  function DecodePair(j: Json): Result<BinRange>
  {
    var a :- At(j, 0);
    var x :- AsInt(a);
    var b :- At(j, 1);
    var y :- AsInt(b);
    Ok((x, y))
  }

  /** The innermost loop of `as_cmm`: the pairs visited, appended to the
      channel's list. */
  function DecodeRanges(ps: seq<(string, Json)>, brl: seq<BinRange>): Result<seq<BinRange>>
    decreases |ps|
  {
    if ps == [] then Ok(brl)
    else
      var p :- DecodePair(ps[0].1);
      DecodeRanges(ps[1..], brl + [p])
  }

  /** The middle loop of `as_cmm`: each visited key through `atoi`, its
      pairs appended to that channel's list. */
  ghost function DecodeCms(ps: seq<(string, Json)>, cms: ChannelMasks): Result<ChannelMasks>
    decreases |ps|
  {
    if ps == [] then Ok(cms)
    else
      var ichid :- Atoi(ps[0].0);
      var brl :- DecodeRanges(Members(ps[0].1), Slot(cms, ichid, []));
      DecodeCms(ps[1..], cms[ichid := brl])
  }

  /** The outer loop of `as_cmm`: each visited tag's channel masks. */
  ghost function DecodeTags(ps: seq<(string, Json)>, cmm: ChannelMaskMap): Result<ChannelMaskMap>
    decreases |ps|
  {
    if ps == [] then Ok(cmm)
    else
      var cms :- DecodeCms(Members(ps[0].1), Slot(cmm, ps[0].0, map[]));
      DecodeTags(ps[1..], cmm[ps[0].0 := cms])
  }

  /** What `as_cmm` computes: an empty map for null; otherwise the members
      of the value in iteration order. */
  ghost function DecodeCmm(j: Json): (r: Result<ChannelMaskMap>)
    ensures j.Null? ==> r == Ok(map[])
  {
    if j.Null? then Ok(map[]) else DecodeTags(Members(j), map[])
  }

  /** `as_cmm`. */
  method AsCmm(jcmm: Json) returns (r: Result<ChannelMaskMap>)
    ensures r == DecodeCmm(jcmm)
  {
    var cmm: ChannelMaskMap := map[];
    if jcmm.Null? {
      return Ok(cmm);
    }
    var tags := MembersOf(jcmm);
    for t := 0 to |tags|
      invariant DecodeTags(tags, map[]) == DecodeTags(tags[t..], cmm)
    {
      var cms := ReadChannels(tags[t].1, Slot(cmm, tags[t].0, map[]));
      if cms.Err? {
        return Err(cms.error);
      }
      assert tags[t..][1..] == tags[t + 1..];
      cmm := cmm[tags[t].0 := cms.value];
    }
    assert tags[|tags|..] == [];
    return Ok(cmm);
  }

  /** The middle loop of `as_cmm`, for one tag. */
  method ReadChannels(jcms: Json, cms0: ChannelMasks) returns (r: Result<ChannelMasks>)
    ensures r == DecodeCms(Members(jcms), cms0)
  {
    var cms: ChannelMasks := cms0;
    var chans := MembersOf(jcms);
    for c := 0 to |chans|
      invariant DecodeCms(chans, cms0) == DecodeCms(chans[c..], cms)
    {
      var ichid := Atoi(chans[c].0);
      if ichid.Err? {
        return Err(ichid.error);
      }
      var brl := ReadRanges(chans[c].1, Slot(cms, ichid.value, []));
      if brl.Err? {
        return Err(brl.error);
      }
      assert chans[c..][1..] == chans[c + 1..];
      cms := cms[ichid.value := brl.value];
    }
    assert chans[|chans|..] == [];
    return Ok(cms);
  }

  /** The innermost loop of `as_cmm`, for one channel. */
  method ReadRanges(jbrl: Json, brl0: seq<BinRange>) returns (r: Result<seq<BinRange>>)
    ensures r == DecodeRanges(Members(jbrl), brl0)
  {
    var brl := brl0;
    var pairs := MembersOf(jbrl);
    for p := 0 to |pairs|
      invariant DecodeRanges(pairs, brl0) == DecodeRanges(pairs[p..], brl)
    {
      var jpair := pairs[p].1;
      var a := At(jpair, 0);
      if a.Err? {
        return Err(a.error);
      }
      var x := AsInt(a.value);
      if x.Err? {
        return Err(x.error);
      }
      var b := At(jpair, 1).value;
      var y := AsInt(b);
      if y.Err? {
        return Err(y.error);
      }
      assert pairs[p..][1..] == pairs[p + 1..];
      brl := brl + [(x.value, y.value)];
    }
    assert pairs[|pairs|..] == [];
    return Ok(brl);
  }

  // ---------------------------------------------------------------
  // The round trip.

  lemma {:induction false} RangesRoundTrip(br: seq<BinRange>, ps: seq<(string, Json)>, acc: seq<BinRange>)
    requires |ps| == |br| && forall i | 0 <= i < |ps| :: ps[i].1 == EncodePair(br[i])
    ensures DecodeRanges(ps, acc) == Ok(acc + br)
    decreases |ps|
  {
    if ps == [] {
      assert acc + br == acc;
    } else {
      assert DecodePair(ps[0].1) == Ok(br[0]);
      RangesRoundTrip(br[1..], ps[1..], acc + [br[0]]);
      assert acc + [br[0]] + br[1..] == acc + br;
    }
  }

  /** `acc` with the entries of `m` under the keys `ks` written over it,
      one after the other. */
  function Fill<K, V>(acc: map<K, V>, m: map<K, V>, ks: seq<K>): map<K, V>
    requires forall i | 0 <= i < |ks| :: ks[i] in m
    decreases |ks|
  {
    if ks == [] then acc else Fill(acc[ks[0] := m[ks[0]]], m, ks[1..])
  }

  lemma {:induction false} FillSpec<K, V>(acc: map<K, V>, m: map<K, V>, ks: seq<K>)
    requires forall i | 0 <= i < |ks| :: ks[i] in m
    ensures forall k :: k in Fill(acc, m, ks) <==> k in acc || k in ks
    ensures forall k | k in Fill(acc, m, ks) :: Fill(acc, m, ks)[k] == if k in ks then m[k] else acc[k]
    decreases |ks|
  {
    if ks != [] {
      FillSpec(acc[ks[0] := m[ks[0]]], m, ks[1..]);
      forall k ensures k in ks <==> k == ks[0] || k in ks[1..] {
        if k in ks {
          var i :| 0 <= i < |ks| && ks[i] == k;
          if i > 0 {
            assert ks[1..][i - 1] == k;
          }
        }
      }
    }
  }

  /** Writing every key of `m` into an empty map gives `m`. */
  lemma FillAll<K, V>(m: map<K, V>, ks: seq<K>)
    requires forall i | 0 <= i < |ks| :: ks[i] in m
    requires forall k | k in m :: k in ks
    ensures Fill(map[], m, ks) == m
  {
    var empty: map<K, V> := map[];
    FillSpec(empty, m, ks);
    var f := Fill(empty, m, ks);
    forall k ensures k in f <==> k in m {
      assert k !in empty;
    }
    forall k | k in m ensures k in f && f[k] == m[k] {
      assert k in ks;
    }
    MapExtensional(f, m);
  }

  lemma MapExtensional<K, V>(f: map<K, V>, m: map<K, V>)
    requires forall k :: k in f <==> k in m
    requires forall k | k in m :: f[k] == m[k]
    ensures f == m
  {
  }

  /** Reading one channel's encoding back gives its ranges. */
  lemma ChannelRoundTrip(br: seq<BinRange>)
    ensures DecodeRanges(Members(EncodeRanges(br)), []) == Ok(br)
  {
    var a := EncodeRanges(br).items;
    MembersOfArray(a);
    RangesRoundTrip(br, Members(EncodeRanges(br)), []);
    assert [] + br == br;
  }

  lemma {:induction false} ChannelsRoundTrip(cms: ChannelMasks, ps: seq<(string, Json)>, cs: seq<Int32>,
                                             acc: ChannelMasks)
    requires |ps| == |cs|
    requires forall i | 0 <= i < |ps| :: cs[i] in cms && ps[i] == (Decimal(cs[i]), EncodeRanges(cms[cs[i]]))
    requires forall i, j | 0 <= i < j < |cs| :: cs[i] != cs[j]
    requires forall i | 0 <= i < |cs| :: cs[i] !in acc
    ensures DecodeCms(ps, acc) == Ok(Fill(acc, cms, cs))
    decreases |ps|
  {
    if ps != [] {
      var c := cs[0];
      AtoiDecimal(c);
      ChannelRoundTrip(cms[c]);
      var acc' := acc[c := cms[c]];
      assert DecodeCms(ps, acc) == DecodeCms(ps[1..], acc') by {
        assert Atoi(ps[0].0) == Ok(c);
        assert Slot(acc, c, []) == [];
      }
      assert forall i | 0 <= i < |cs[1..]| :: cs[1..][i] !in acc' by {
        forall i | 0 <= i < |cs[1..]| ensures cs[1..][i] !in acc' {
          assert cs[1..][i] == cs[i + 1];
        }
      }
      ChannelsRoundTrip(cms, ps[1..], cs[1..], acc');
    }
  }

  /** The keys of a member list, in order. */
  function KeysOf(ps: seq<(string, Json)>): (ks: seq<string>)
    ensures |ks| == |ps| && forall i | 0 <= i < |ps| :: ks[i] == ps[i].0
  {
    seq(|ps|, i requires 0 <= i < |ps| => ps[i].0)
  }

  lemma {:induction false} TagsRoundTrip(cmm: ChannelMaskMap, ps: seq<(string, Json)>, acc: ChannelMaskMap)
    requires forall i | 0 <= i < |ps| :: ps[i].0 in cmm && EncodesCms(ps[i].1, cmm[ps[i].0])
    requires forall i, j | 0 <= i < j < |ps| :: ps[i].0 != ps[j].0
    requires forall i | 0 <= i < |ps| :: ps[i].0 !in acc
    ensures DecodeTags(ps, acc) == Ok(Fill(acc, cmm, KeysOf(ps)))
    decreases |ps|
  {
    if ps != [] {
      var t := ps[0].0;
      CmsRoundTrip(ps[0].1, cmm[t]);
      var acc' := acc[t := cmm[t]];
      assert DecodeTags(ps, acc) == DecodeTags(ps[1..], acc') by {
        assert Slot(acc, t, map[]) == map[];
      }
      assert forall i | 0 <= i < |ps[1..]| :: ps[1..][i].0 !in acc' by {
        forall i | 0 <= i < |ps[1..]| ensures ps[1..][i].0 !in acc' {
          assert ps[1..][i] == ps[i + 1];
        }
      }
      TagsRoundTrip(cmm, ps[1..], acc');
      assert KeysOf(ps)[1..] == KeysOf(ps[1..]);
    }
  }

  /** The channel of `cms` whose decimal name is `key`. */
  ghost function ChannelNamed(cms: ChannelMasks, key: string): (c: Int32)
    requires exists c | c in cms :: key == Decimal(c)
    ensures c in cms && key == Decimal(c)
  {
    var c :| c in cms && key == Decimal(c); c
  }

  /** The channels an encoding's members are keyed by, in iteration order:
      each member is its channel's encoding, no channel comes twice and
      every channel comes. */
  lemma ChannelKeys(j: Json, ps: seq<(string, Json)>, cms: ChannelMasks) returns (cs: seq<Int32>)
    requires EncodesCms(j, cms) && Enumerates(j.members, ps)
    ensures |cs| == |ps|
    ensures forall i | 0 <= i < |cs| :: cs[i] in cms && ps[i] == (Decimal(cs[i]), EncodeRanges(cms[cs[i]]))
    ensures forall i, i' | 0 <= i < i' < |cs| :: cs[i] != cs[i']
    ensures forall c | c in cms :: c in cs
  {
    cs := ChannelsNamed(j, ps, cms);
    forall i | 0 <= i < |cs| ensures cs[i] in cms && ps[i] == (Decimal(cs[i]), EncodeRanges(cms[cs[i]])) {
      assert ps[i].1 == j.members[Decimal(cs[i])];
    }
    ChannelKeysCover(j, ps, cms, cs);
  }

  /** The channels named by the keys of an enumeration of an encoding. */
  ghost function ChannelsNamed(j: Json, ps: seq<(string, Json)>, cms: ChannelMasks): (cs: seq<Int32>)
    requires EncodesCms(j, cms) && Enumerates(j.members, ps)
    ensures |cs| == |ps|
    ensures forall i | 0 <= i < |ps| :: cs[i] in cms && ps[i].0 == Decimal(cs[i])
  {
    seq(|ps|, i requires 0 <= i < |ps| => ChannelOfKey(j, cms, ps[i].0))
  }

  /** The channel a member key of an encoding names. */
  ghost function ChannelOfKey(j: Json, cms: ChannelMasks, key: string): (c: Int32)
    requires EncodesCms(j, cms) && key in j.members
    ensures c in cms && key == Decimal(c)
  {
    ChannelNamed(cms, key)
  }

  /** Every channel of `cms` is among the channels `cs` read off the keys `ps`. */
  lemma ChannelKeysCover(j: Json, ps: seq<(string, Json)>, cms: ChannelMasks, cs: seq<Int32>)
    requires EncodesCms(j, cms) && Enumerates(j.members, ps)
    requires |cs| == |ps| && forall i | 0 <= i < |ps| :: ps[i].0 == Decimal(cs[i])
    ensures forall c | c in cms :: c in cs
  {
    forall c | c in cms ensures c in cs {
      assert Decimal(c) in j.members;
      var i :| 0 <= i < |ps| && ps[i].0 == Decimal(c);
      if cs[i] != c {
        DecimalDistinct(cs[i], c);
      }
    }
  }

  /** `as_cmm` reads back one tag's masks exactly as `as_config` wrote them. */
  lemma CmsRoundTrip(j: Json, cms: ChannelMasks)
    requires EncodesCms(j, cms)
    ensures DecodeCms(Members(j), map[]) == Ok(cms)
  {
    MembersEnumerate(j.members);
    var cs := ChannelKeys(j, Members(j), cms);
    var empty: ChannelMasks := map[];
    ChannelsRoundTrip(cms, Members(j), cs, empty);
    FillAll(cms, cs);
  }

  /** `as_cmm(as_config(m)) == m` for every channel-mask map. */
  lemma CmmRoundTrip(j: Json, cmm: ChannelMaskMap)
    requires EncodesCmm(j, cmm)
    ensures DecodeCmm(j) == Ok(cmm)
  {
    var ps := Members(j);
    MembersEnumerate(j.members);
    TagsRoundTrip(cmm, ps, map[]);
    KeysOfCover(j.members, ps);
    FillAll(cmm, KeysOf(ps));
  }

  /** The keys of an enumeration of `m` are exactly the keys of `m`. */
  lemma KeysOfCover(m: map<string, Json>, ps: seq<(string, Json)>)
    requires Enumerates(m, ps)
    ensures forall i | 0 <= i < |ps| :: KeysOf(ps)[i] in m
    ensures forall t | t in m :: t in KeysOf(ps)
  {
    var ks := KeysOf(ps);
    forall t | t in m ensures t in ks {
      var i :| 0 <= i < |ps| && ps[i].0 == t;
      assert ks[i] == t;
    }
  }

  /** Writing a channel-mask map and reading it back gives the same map. */
  method WriteThenRead(cmm: ChannelMaskMap) returns (r: Result<ChannelMaskMap>)
    ensures r == Ok(cmm)
  {
    var j := AsConfigCmm(cmm);
    r := AsCmm(j);
    CmmRoundTrip(j, cmm);
  }

  // ---------------------------------------------------------------
  // The masks in frame metadata.

  /** `fmd` is frame metadata that `as_tensors` has filled from `meta`
      by setting `"masks"` to the encoding of `cmm`. */
  ghost predicate HoldsMasks(fmd: Json, meta: map<string, Json>, cmm: ChannelMaskMap)
  {
    && fmd.Obj?
    && "masks" in fmd.members
    && EncodesCmm(fmd.members["masks"], cmm)
    && fmd.members == meta["masks" := fmd.members["masks"]]
  }

  /** `as_tensors` storing a frame's masks in its metadata. */
  method WriteFrameMasks(meta: map<string, Json>, cmm: ChannelMaskMap) returns (fmd: Json)
    ensures HoldsMasks(fmd, meta, cmm)
  {
    var j := AsConfigCmm(cmm);
    fmd := Obj(meta["masks" := j]);
  }

  /** The masks `as_frame` gives its frame, as written: it reads the
      member `"cmm"`, which is null in metadata `as_tensors` wrote. */
  ghost function FrameMasksAsWritten(fmd: Json): Result<ChannelMaskMap>
  {
    var j :- Get(fmd, "cmm");
    DecodeCmm(j)
  }

  /** Masks written by `as_tensors` do not survive `as_frame` as written:
      whatever the frame's masks, the frame read back has none. */
  lemma MasksLostAsWritten(fmd: Json, meta: map<string, Json>, cmm: ChannelMaskMap)
    requires HoldsMasks(fmd, meta, cmm) && "cmm" !in meta && cmm != map[]
    ensures FrameMasksAsWritten(fmd) == Ok(map[])
    ensures FrameMasksAsWritten(fmd) != Ok(cmm)
  {
    assert "cmm" !in fmd.members;
  }

  /** The masks `as_frame` evidently means to read: the member `"masks"`. */
  ghost function FrameMasks(fmd: Json): Result<ChannelMaskMap>
  {
    var j :- Get(fmd, "masks");
    DecodeCmm(j)
  }

  /** Reading the member `"masks"` gives back the masks `as_tensors` wrote. */
  lemma FrameMasksRoundTrip(fmd: Json, meta: map<string, Json>, cmm: ChannelMaskMap)
    requires HoldsMasks(fmd, meta, cmm)
    ensures FrameMasks(fmd) == Ok(cmm)
  {
    CmmRoundTrip(fmd.members["masks"], cmm);
  }

  /** `as_frame` reading masks from frame metadata, corrected. */
  method ReadFrameMasks(fmd: Json) returns (r: Result<ChannelMaskMap>)
    ensures r == FrameMasks(fmd)
  {
    var j := Get(fmd, "masks");
    if j.Err? {
      return Err(j.error);
    }
    r := AsCmm(j.value);
  }

  // ---------------------------------------------------------------
  // Traces from trace tensors.

  /** A trace `as_frame` forms, named by the trace tensor it comes from
      and the row of that tensor it copies. */
  datatype TraceSource = TraceSource(tensor: nat, row: nat)

  /** The traces one trace tensor of shape `shape` yields: a rank-1
      tensor is one trace, a rank-2 tensor one trace per row; any other
      rank is a `ValueError`. */
  function TensorTraces(t: nat, shape: seq<nat>): (r: Result<seq<TraceSource>>)
  {
    if |shape| < 1 || |shape| > 2 then Err(ValueError)
    else if |shape| == 1 then Ok([TraceSource(t, 0)])
    else Ok(seq(shape[0], row requires 0 <= row < shape[0] => TraceSource(t, row)))
  }

  /** The traces of the first `|shapes|` trace tensors, in order. */
  function Traces(shapes: seq<seq<nat>>): Result<seq<TraceSource>>
  {
    if shapes == [] then Ok([])
    else
      var front :- Traces(shapes[..|shapes| - 1]);
      var last :- TensorTraces(|shapes| - 1, shapes[|shapes| - 1]);
      Ok(front + last)
  }

  /** Forming traces fails exactly when some trace tensor has a rank other
      than 1 or 2, and then with a `ValueError`. */
  lemma {:induction false} TracesFail(shapes: seq<seq<nat>>)
    ensures Traces(shapes).Err? <==> exists t | 0 <= t < |shapes| :: |shapes[t]| < 1 || |shapes[t]| > 2
    ensures Traces(shapes).Err? ==> Traces(shapes).error == ValueError
  {
    if shapes != [] {
      var n := |shapes| - 1;
      TracesFail(shapes[..n]);
      if exists t | 0 <= t < n :: |shapes[..n][t]| < 1 || |shapes[..n][t]| > 2 {
        var t :| 0 <= t < n && (|shapes[..n][t]| < 1 || |shapes[..n][t]| > 2);
        assert shapes[t] == shapes[..n][t];
      }
      if exists t | 0 <= t < |shapes| :: |shapes[t]| < 1 || |shapes[t]| > 2 {
        var t :| 0 <= t < |shapes| && (|shapes[t]| < 1 || |shapes[t]| > 2);
        if t < n {
          assert shapes[..n][t] == shapes[t];
        }
      }
    }
  }

  /** The number of traces a well-formed list of trace tensors yields:
      one for each rank-1 tensor plus the row count of each rank-2 one. */
  function TraceCount(shapes: seq<seq<nat>>): nat
  {
    if shapes == [] then 0
    else
      var s := shapes[|shapes| - 1];
      TraceCount(shapes[..|shapes| - 1]) + (if |s| == 2 then s[0] else 1)
  }

  /** When forming traces succeeds, each trace tensor contributes its rows
      in order, so the trace count is `TraceCount` and every trace names
      a tensor and one of its rows. */
  lemma {:induction false} TracesShape(shapes: seq<seq<nat>>)
    requires Traces(shapes).Ok?
    ensures |Traces(shapes).value| == TraceCount(shapes)
    ensures forall k | 0 <= k < |Traces(shapes).value| ::
              var ts := Traces(shapes).value[k];
              ts.tensor < |shapes| && (if |shapes[ts.tensor]| == 2 then ts.row < shapes[ts.tensor][0] else ts.row == 0)
  {
    if shapes != [] {
      var n := |shapes| - 1;
      TracesShape(shapes[..n]);
      var front := Traces(shapes[..n]).value;
      var last := TensorTraces(n, shapes[n]).value;
      assert Traces(shapes).value == front + last;
      forall k | 0 <= k < |front| ensures front[k].tensor < n && shapes[..n][front[k].tensor] == shapes[front[k].tensor] {
      }
    }
  }

  /** The loop of `as_frame` that turns trace tensors into traces. */
  method FormTraces(shapes: seq<seq<nat>>) returns (r: Result<seq<TraceSource>>)
    ensures r == Traces(shapes)
  {
    var traces: seq<TraceSource> := [];
    var t := 0;
    while t < |shapes|
      invariant 0 <= t <= |shapes|
      invariant Traces(shapes[..t]) == Ok(traces)
    {
      var shape := shapes[t];
      if |shape| < 1 || |shape| > 2 {
        TracesErrExtends(shapes, t);
        return Err(ValueError);
      }
      assert shapes[..t + 1][..t] == shapes[..t];
      if |shape| == 1 {
        traces := traces + [TraceSource(t, 0)];
      } else {
        var row := 0;
        while row < shape[0]
          invariant 0 <= row <= shape[0]
          invariant traces == Traces(shapes[..t]).value + seq(row, k requires 0 <= k < row => TraceSource(t, k))
        {
          traces := traces + [TraceSource(t, row)];
          row := row + 1;
        }
      }
      t := t + 1;
    }
    assert shapes[..t] == shapes;
    r := Ok(traces);
  }

  /** Once a prefix of the trace tensors fails, so do all longer ones. */
  lemma {:induction false} TracesErrExtends(shapes: seq<seq<nat>>, t: nat)
    requires t < |shapes| && (|shapes[t]| < 1 || |shapes[t]| > 2)
    ensures Traces(shapes) == Err(ValueError)
  {
    TracesFail(shapes);
  }

  // ---------------------------------------------------------------
  // Channel idents from trace data.

  /** The channel every trace starts with before trace data names one. */
  const DefaultChid: Int32 := -1

  /** Tagless trace data supplies the channel of every trace, in order:
      its `chid` array must be exactly as long as the list of traces. */
  function TaglessChids(ntraces: nat, chid: seq<Int32>): (r: Result<seq<Int32>>)
    ensures r.Ok? <==> |chid| == ntraces
    ensures r.Ok? ==> r.value == chid
    ensures r.Err? ==> r.error == ValueError
  {
    if |chid| != ntraces then Err(ValueError) else Ok(chid)
  }

  /** `chids` after the tagged trace data `(index, chid)` has set the
      channel of trace `index[k]` to `chid[k]` for each `k`, in order. */
  function Retagged(chids: seq<Int32>, index: seq<nat>, chid: seq<Int32>): (r: seq<Int32>)
    requires |index| == |chid| && forall k | 0 <= k < |index| :: index[k] < |chids|
    ensures |r| == |chids|
  {
    if index == [] then chids
    else
      var n := |index| - 1;
      Retagged(chids, index[..n], chid[..n])[index[n] := chid[n]]
  }

  /** The position of the last entry of `index` naming trace `p`. */
  function LastNaming(index: seq<nat>, p: nat): (r: Option<nat>)
    ensures r.Some? ==> r.value < |index| && index[r.value] == p
    ensures r.Some? ==> forall k | r.value < k < |index| :: index[k] != p
    ensures r.None? <==> forall k | 0 <= k < |index| :: index[k] != p
  {
    if index == [] then None
    else if index[|index| - 1] == p then Some(|index| - 1)
    else LastNaming(index[..|index| - 1], p)
  }

  /** Trace `p` after tagged trace data: the channel of the last entry
      naming it, or its earlier channel. */
  lemma {:induction false} RetaggedAt(chids: seq<Int32>, index: seq<nat>, chid: seq<Int32>, p: nat)
    requires |index| == |chid| && forall k | 0 <= k < |index| :: index[k] < |chids|
    requires p < |chids|
    ensures Retagged(chids, index, chid)[p]
            == if LastNaming(index, p).Some? then chid[LastNaming(index, p).value] else chids[p]
  {
    if index != [] {
      var n := |index| - 1;
      if index[n] != p {
        RetaggedAt(chids, index[..n], chid[..n], p);
        var last := LastNaming(index[..n], p);
        assert LastNaming(index, p) == last;
        if last.Some? {
          assert chid[..n][last.value] == chid[last.value];
        }
      }
    }
  }

  /** After tagged trace data, each trace holds the channel of the last
      entry naming it, or its earlier channel when no entry does. */
  lemma RetaggedSpec(chids: seq<Int32>, index: seq<nat>, chid: seq<Int32>, p: nat)
    requires |index| == |chid| && forall k | 0 <= k < |index| :: index[k] < |chids|
    requires p < |chids|
    ensures (forall k | 0 <= k < |index| :: index[k] != p) ==> Retagged(chids, index, chid)[p] == chids[p]
    ensures forall k | 0 <= k < |index| && index[k] == p ::
              (forall k' | k < k' < |index| :: index[k'] != p) ==> Retagged(chids, index, chid)[p] == chid[k]
  {
    RetaggedAt(chids, index, chid, p);
    var last := LastNaming(index, p);
    forall k | 0 <= k < |index| && index[k] == p && (forall k' | k < k' < |index| :: index[k'] != p)
      ensures Retagged(chids, index, chid)[p] == chid[k]
    {
      assert last.Some?;
      assert !(k < last.value) && !(last.value < k);
    }
  }

  /** Tagged trace data: `index` (absent when `None`) lists the traces the
      tag selects and `chid` (optional) their channels. A missing index,
      or a `chid` array of another length than the index, is a
      `ValueError`. */
  function TaggedChids(chids: seq<Int32>, index: Option<seq<nat>>, chid: Option<seq<Int32>>): (r: Result<seq<Int32>>)
    requires index.Some? && chid.Some? && |chid.value| == |index.value| ==>
               forall k | 0 <= k < |index.value| :: index.value[k] < |chids|
    ensures r.Err? <==> index.None? || (chid.Some? && |chid.value| != |index.value|)
    ensures r.Err? ==> r.error == ValueError
    ensures r.Ok? && chid.None? ==> r.value == chids
  {
    if index.None? then Err(ValueError)
    else if chid.None? then Ok(chids)
    else if |chid.value| != |index.value| then Err(ValueError)
    else Ok(Retagged(chids, index.value, chid.value))
  }

  /** A chid array of the wrong length is a `ValueError` before any index
      entry is used, even one naming no trace. */
  lemma TaggedLengthMismatch()
    ensures TaggedChids([-1], Some([5]), Some([1, 2])) == Err(ValueError)
  {
  }

  /** The loop of `as_frame` that copies tagged channel idents onto the
      traces. */
  method AssignChids(chids: seq<Int32>, index: seq<nat>, chid: seq<Int32>) returns (r: seq<Int32>)
    requires |index| == |chid| && forall k | 0 <= k < |index| :: index[k] < |chids|
    ensures r == Retagged(chids, index, chid)
  {
    r := chids;
    var k := 0;
    while k < |index|
      invariant 0 <= k <= |index|
      invariant r == Retagged(chids, index[..k], chid[..k])
    {
      assert index[..k + 1][..k] == index[..k] && chid[..k + 1][..k] == chid[..k];
      r := r[index[k] := chid[k]];
      k := k + 1;
    }
    assert index[..k] == index && chid[..k] == chid;
  }
}
