/**
 * How a call into one of the evaluator's collaborators ends: it either returns a value
 * or throws a C++ exception, which unwinds through the caller.
 */
module Outcomes {

  /** An opaque description of the value a collaborator threw (C++ can throw a value of any type). */
  datatype Exception = Exception(description: string)

  datatype Outcome<+T> = Returned(value: T) | Threw(exception: Exception)

  /**
   * The position of the first call that threw, or |outs| when every call returned.
   * It is the point at which a loop running these calls in order is cut short.
   */
  function FirstThrown<T>(outs: seq<Outcome<T>>): (f: nat)
    ensures f <= |outs|
    ensures forall j :: 0 <= j < f ==> outs[j].Returned?
    ensures f < |outs| ==> outs[f].Threw?
  {
    if outs == [] || outs[0].Threw? then 0 else 1 + FirstThrown(outs[1..])
  }

  /** The returned values of a run of calls none of which threw, in call order. */
  function Values<T>(outs: seq<Outcome<T>>): (vs: seq<T>)
    requires forall j :: 0 <= j < |outs| ==> outs[j].Returned?
    ensures |vs| == |outs|
    ensures forall j :: 0 <= j < |outs| ==> outs[j] == Returned(vs[j])
  {
    seq(|outs|, j requires 0 <= j < |outs| => outs[j].value)
  }
}
