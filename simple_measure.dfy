/** `SimpleMeasure` (iface/inc/WireCellIface/SimpleMeasure.h): a measure
    of signal over a set of channels, with an ident that falls back on the
    channels' idents when its own is out of range. */
module SimpleMeasure {
  import opened Wrappers

  /** The ident `ident()` treats as too big to be its own. */
  const TooBig: Int32 := 0x7fff_ffff

  /** A channel, as far as a measure uses it: `IChannel::ident()`. */
  datatype Channel = Channel(ident: Int32)

  /** The ident of the last channel whose ident is below `bound`, or
      `TooBig` when none is. */
  function LastBelow(chans: seq<Channel>, bound: Int32): Int32
  {
    if chans == [] then TooBig
    else if chans[|chans| - 1].ident < bound then chans[|chans| - 1].ident
    else LastBelow(chans[..|chans| - 1], bound)
  }

  /** `LastBelow` is `TooBig` exactly when no channel is below `bound`,
      and otherwise the ident of a channel below `bound` with no channel
      below `bound` after it. */
  lemma {:induction false} LastBelowSpec(chans: seq<Channel>, bound: Int32)
    ensures (forall k | 0 <= k < |chans| :: chans[k].ident >= bound) ==> LastBelow(chans, bound) == TooBig
    ensures (exists k | 0 <= k < |chans| :: chans[k].ident < bound) ==>
              exists k | 0 <= k < |chans| :: && chans[k].ident < bound
                                             && LastBelow(chans, bound) == chans[k].ident
                                             && forall k' | k < k' < |chans| :: chans[k'].ident >= bound
  {
    if chans != [] {
      var n := |chans| - 1;
      LastBelowSpec(chans[..n], bound);
      if chans[n].ident >= bound {
        assert forall k | 0 <= k < n :: chans[..n][k] == chans[k];
        if exists k | 0 <= k < |chans| :: chans[k].ident < bound {
          var k :| 0 <= k < |chans| && chans[k].ident < bound;
          assert chans[..n][k].ident < bound;
        }
      }
    }
  }

  /** The smallest channel ident, or `TooBig` when it is smaller. */
  function Smallest(chans: seq<Channel>): Int32
  {
    if chans == [] then TooBig
    else
      var rest := Smallest(chans[..|chans| - 1]);
      if chans[|chans| - 1].ident < rest then chans[|chans| - 1].ident else rest
  }

  /** `Smallest` is a lower bound of `TooBig` and of every channel ident,
      and is one of them. */
  lemma {:induction false} SmallestSpec(chans: seq<Channel>)
    ensures Smallest(chans) <= TooBig
    ensures forall k | 0 <= k < |chans| :: Smallest(chans) <= chans[k].ident
    ensures Smallest(chans) == TooBig || exists k | 0 <= k < |chans| :: Smallest(chans) == chans[k].ident
  {
    if chans != [] {
      var n := |chans| - 1;
      SmallestSpec(chans[..n]);
      assert forall k | 0 <= k < n :: chans[..n][k] == chans[k];
      if Smallest(chans) != TooBig && Smallest(chans) != chans[n].ident {
        var k :| 0 <= k < n && Smallest(chans[..n]) == chans[..n][k].ident;
        assert Smallest(chans) == chans[k].ident;
      }
    }
  }

  /** An ident in `[0, TooBig)` is a measure's own. */
  predicate Reasonable(id: Int32)
  {
    0 <= id < TooBig
  }

  class Measure<S> {
    var id: Int32
    var sig: S
    var chans: seq<Channel>

    constructor(ident: Int32, signal: S, chans: seq<Channel>)
      ensures id == ident && sig == signal && this.chans == chans
    {
      id := ident;
      sig := signal;
      this.chans := chans;
    }

    /** `signal()`. */
    function Signal(): (r: S)
      reads this
      ensures r == sig
    {
      sig
    }

    /** `channels()`. */
    function Channels(): (r: seq<Channel>)
      reads this
      ensures r == chans
    {
      chans
    }

    /** `ident()` as written: a reasonable `id` is the ident; otherwise
        the loop keeps the last channel ident below `id`, not the
        smallest one. */
    method Ident() returns (r: Int32)
      ensures Reasonable(id) ==> r == id
      ensures !Reasonable(id) ==> r == LastBelow(chans, id)
    {
      if 0 <= id < TooBig {
        return id;
      }
      r := TooBig;
      var k := 0;
      while k < |chans|
        invariant 0 <= k <= |chans|
        invariant r == LastBelow(chans[..k], id)
      {
        assert chans[..k + 1][..k] == chans[..k];
        var chid := chans[k].ident;
        if chid < id {
          r := chid;
        }
        k := k + 1;
      }
      assert chans[..k] == chans;
    }

    /** `ident()` as its comment describes it: a reasonable `id` is the
        ident; otherwise the smallest channel ident, compared against the
        running minimum. */
    method SmallestIdent() returns (r: Int32)
      ensures Reasonable(id) ==> r == id
      ensures !Reasonable(id) ==> r == Smallest(chans)
    {
      if 0 <= id < TooBig {
        return id;
      }
      r := TooBig;
      var k := 0;
      while k < |chans|
        invariant 0 <= k <= |chans|
        invariant r == Smallest(chans[..k])
      {
        assert chans[..k + 1][..k] == chans[..k];
        var chid := chans[k].ident;
        if chid < r {
          r := chid;
        }
        k := k + 1;
      }
      assert chans[..k] == chans;
    }
  }

  /** With a negative `id` no channel ident is below it, so `ident()` as
      written ignores the channels; the smallest of them is 5. */
  lemma IdentIgnoresChannels()
    ensures LastBelow([Channel(5)], -1) == TooBig
    ensures Smallest([Channel(5)]) == 5
  {
  }

  /** With `id == TooBig`, `ident()` as written keeps the later channel 7
      rather than the smaller channel 3. */
  lemma IdentKeepsLast()
    ensures LastBelow([Channel(3), Channel(7)], TooBig) == 7
    ensures Smallest([Channel(3), Channel(7)]) == 3
  {
    assert [Channel(3), Channel(7)][..1] == [Channel(3)];
  }
}
