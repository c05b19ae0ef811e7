/** probe's ProbeCollection: an append-only list of probes, each either a
    float probe or an int probe, read back with a typed getter. */
module Probes {
  import opened Wrappers

  /** The fields every probe has. */
  datatype BaseProbe = BaseProbe(
    timestamp: nat,                       // time at which the probe samples the data
    valueName: string,                    // name of the sampled field
    position: (Float, Float, Float),      // probe head on the surface
    direction: (Float, Float, Float),     // insertion and sampling direction
    begin: Float,                         // "sample from" offset from the position
    end: Float)                           // "sample to" offset from the position

  /** The alternatives of GenericProbe, as a template argument names them. */
  datatype ProbeType = FloatProbeType | IntProbeType

  /** GenericProbe: std::variant<FloatProbe, IntProbe>. */
  datatype GenericProbe = FloatProbe(base: BaseProbe) | IntProbe(base: BaseProbe)
  {
    /** The alternative this probe holds. */
    function Type(): ProbeType {
      if FloatProbe? then FloatProbeType else IntProbeType
    }
  }

  /** The probe of alternative `t` with fields `base`. */
  function MakeProbe(t: ProbeType, base: BaseProbe): (p: GenericProbe)
    ensures p.Type() == t && p.base == base
  {
    match t
    case FloatProbeType => FloatProbe(base)
    case IntProbeType => IntProbe(base)
  }

  /** std::bad_variant_access, thrown by std::get on the wrong alternative. */
  datatype BadVariantAccess = BadVariantAccess

  class ProbeCollection {
    var probes: seq<GenericProbe>

    constructor ()
      ensures probes == []
    {
      probes := [];
    }

    /** addProbe: appends the probe; earlier probes are unchanged. */
    method AddProbe(probe: GenericProbe)
      modifies this
      ensures probes == old(probes) + [probe]
    {
      probes := probes + [probe];
    }

    /** getProbe<T>(idx): the stored probe when entry idx holds alternative
        t, a bad_variant_access otherwise. Indexing is unchecked, so idx must
        be in range. */
    function GetProbe(t: ProbeType, idx: nat): (r: Result<BaseProbe, BadVariantAccess>)
      reads this
      requires idx < |probes|
      ensures r.Success? <==> probes[idx].Type() == t
      ensures r.Success? ==> probes[idx] == MakeProbe(t, r.value)
    {
      match (t, probes[idx])
      case (FloatProbeType, FloatProbe(b)) => Success(b)
      case (IntProbeType, IntProbe(b)) => Success(b)
      case _ => Failure(BadVariantAccess)
    }
  }

  /** A probe added last is read back with its own type and fails with the
      other one; the earlier probes read back as before. */
  method AddThenGet(c: ProbeCollection, probe: GenericProbe, other: ProbeType)
    modifies c
    ensures |c.probes| == |old(c.probes)| + 1
    ensures c.GetProbe(probe.Type(), |old(c.probes)|) == Success(probe.base)
    ensures other != probe.Type() ==> c.GetProbe(other, |old(c.probes)|).Failure?
    ensures forall i :: 0 <= i < |old(c.probes)| ==> c.probes[i] == old(c.probes[i])
  {
    c.AddProbe(probe);
  }
}
