/** `TensorFanout` (aux/src/TensorFanout.cxx): a graph node that sends
    each input tensor, or the end-of-stream marker, to a configurable
    number of output ports. */
module TensorFanout {
  import opened Wrappers
  import opened Json

  /** The C++ conversion `(int) n` of a `size_t`: the value modulo 2^32,
      read as a two's-complement 32-bit integer. */
  function CInt(n: nat): (r: Int32)
    ensures n < 0x8000_0000 ==> r == n
    ensures (r as int - n) % 0x1_0000_0000 == 0
  {
    var w := n % 0x1_0000_0000;
    if w < 0x8000_0000 then w else w - 0x1_0000_0000
  }

  /** The multiplicity `configure(cfg)` settles on from the current one:
      the integer under `"multiplicity"`, or the current value cast to
      `int` when the key is missing or null; anything not positive is a
      `ValueError`. So with the key missing the current value is kept
      when it is a positive `int`, and the default of 0 is rejected. */
  function Configured(cfg: Json, current: nat): (r: Result<nat>)
    ensures r.Ok? ==> 0 < r.value < 0x8000_0000
    ensures cfg.Obj? && "multiplicity" in cfg.members && cfg.members["multiplicity"].Int? ==>
              var i := cfg.members["multiplicity"].i;
              r == if -0x8000_0000 <= i <= 0 then Err(ValueError)
                   else if 0 < i < 0x8000_0000 then Ok(i)
                   else Err(LogicError)
    ensures cfg.Null? || (cfg.Obj? && "multiplicity" !in cfg.members) ==>
              r == if 0 < CInt(current) then Ok(CInt(current) as nat) else Err(ValueError)
    ensures (cfg.Null? || (cfg.Obj? && "multiplicity" !in cfg.members)) && current < 0x8000_0000 ==>
              r == if 0 < current then Ok(current) else Err(ValueError)
  {
    var j :- Get(cfg, "multiplicity");
    var m :- if j.Null? then Ok(CInt(current)) else AsInt(j);
    if m <= 0 then Err(ValueError) else Ok(m)
  }

  class Fanout {
    /** `m_multiplicity`, a `size_t`. */
    var multiplicity: nat

    /** `TensorFanout(multiplicity = 0)`. */
    constructor(multiplicity: nat)
      ensures this.multiplicity == multiplicity
    {
      this.multiplicity := multiplicity;
    }

    /** `default_configuration()`: the current multiplicity, cast to `int`. */
    function DefaultConfiguration(): (cfg: Json)
      reads this
      ensures cfg.Obj? && cfg.members.Keys == {"multiplicity"}
      ensures cfg.members["multiplicity"] == Int(CInt(multiplicity))
    {
      Obj(map["multiplicity" := Int(CInt(multiplicity))])
    }

    /** `configure(cfg)`: stores the configured multiplicity, or leaves
        the node unchanged and reports the error. */
    method Configure(cfg: Json) returns (r: Result<()>)
      modifies this
      ensures Configured(cfg, old(multiplicity)).Ok? ==>
                r == Ok(()) && multiplicity == Configured(cfg, old(multiplicity)).value
      ensures Configured(cfg, old(multiplicity)).Err? ==>
                r == Err(Configured(cfg, old(multiplicity)).error) && multiplicity == old(multiplicity)
    {
      var m := Configured(cfg, multiplicity);
      if m.Err? {
        return Err(m.error);
      }
      multiplicity := m.value;
      r := Ok(());
    }

    /** `output_types()`: one copy of the output type's name per port. */
    function OutputTypes(tname: string): (r: seq<string>)
      reads this
      ensures |r| == multiplicity
      ensures forall i | 0 <= i < |r| :: r[i] == tname
    {
      var n := multiplicity;
      seq(n, i requires 0 <= i < n => tname)
    }

    /** `operator()(in, outv)`: `outv` is resized to the multiplicity and
        every port gets the input, the end-of-stream marker `None`
        included; the call always reports success. */
    method Apply<T>(input: Option<T>, outv: seq<Option<T>>) returns (out: seq<Option<T>>, ok: bool)
      ensures |out| == multiplicity
      ensures forall i | 0 <= i < |out| :: out[i] == input
      ensures ok
    {
      out := Resize(outv, multiplicity);
      var ind := 0;
      while ind < multiplicity
        invariant 0 <= ind <= multiplicity == |out|
        invariant forall i | 0 <= i < ind :: out[i] == input
      {
        out := out[ind := input];
        ind := ind + 1;
      }
      ok := true;
    }
  }

  /** `std::vector::resize(n)` on a vector of pointers: the first `n`
      entries are kept and any new ones are null. */
  function Resize<T>(v: seq<Option<T>>, n: nat): (r: seq<Option<T>>)
    ensures |r| == n
    ensures forall i | 0 <= i < n :: r[i] == if i < |v| then v[i] else None
  {
    seq(n, i requires 0 <= i < n => if i < |v| then v[i] else None)
  }

  /** Configuring a node with its own default configuration keeps its
      multiplicity when that is a positive `int`, and fails otherwise. */
  lemma DefaultConfigurationRoundTrip(f: Fanout)
    ensures 0 < f.multiplicity < 0x8000_0000 ==> Configured(f.DefaultConfiguration(), f.multiplicity) == Ok(f.multiplicity)
    ensures f.multiplicity == 0 ==> Configured(f.DefaultConfiguration(), f.multiplicity) == Err(ValueError)
  {
  }
}
