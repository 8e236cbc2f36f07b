/** Histories of the recursive PAV argument (C_recursive_PAV_rule): a history
    is a list of steps (committee, T), where T is a deviation objecting to the
    committee; `info` maps histories to what the solver found about them. */
module Histories {
  import opened Collections

  /** One step `(committee, T)` of a history; both are tuples of alternatives. */
  datatype Step = Step(committee: seq<Alt>, deviation: seq<Alt>)

  type History = seq<Step>

  /** `info[history]["farkas"]`: the dual vector of an infeasible history. */
  datatype Certificate = Certificate(alpha: real, beta: map<(nat, Alt, Alt), real>, gamma: map<nat, real>)

  /** `info[history]`: whether the history was found successful, and its
      certificate when it carries a "farkas" entry. */
  datatype Record = Record(successful: bool, farkas: Option<Certificate>)

  /** `set().union(*[set(T) for _, T in history])`. */
  function PastDeviations(h: History): set<Alt>
  {
    if h == [] then {} else PastDeviations(h[..|h| - 1]) + Elems(h[|h| - 1].deviation)
  }

  lemma PastDeviationsSnoc(h: History, s: Step)
    ensures PastDeviations(h + [s]) == PastDeviations(h) + Elems(s.deviation)
  {
    assert (h + [s])[..|h|] == h;
  }

  lemma {:induction false} PastDeviationsMember(h: History, x: Alt)
    ensures x in PastDeviations(h) <==> exists t :: 0 <= t < |h| && x in Elems(h[t].deviation)
  {
    if h != [] {
      var init := h[..|h| - 1];
      PastDeviationsMember(init, x);
      if exists t :: 0 <= t < |init| && x in Elems(init[t].deviation) {
        var t :| 0 <= t < |init| && x in Elems(init[t].deviation);
        assert h[t] == init[t];
      }
      if exists t :: 0 <= t < |h| && x in Elems(h[t].deviation) {
        var t :| 0 <= t < |h| && x in Elems(h[t].deviation);
        if t < |init| {
          assert h[t] == init[t];
        }
      }
    }
  }

  /** The identifiable sets of a history: `[T for _, T in history] +
      [committee for committee, _ in history]`. */
  function IdentifiableSets(h: History): (r: seq<set<Alt>>)
    ensures |r| == 2 * |h|
    ensures forall t | 0 <= t < |h| :: r[t] == Elems(h[t].deviation) && r[|h| + t] == Elems(h[t].committee)
  {
    seq(|h|, t requires 0 <= t < |h| => Elems(h[t].deviation)) + seq(|h|, t requires 0 <= t < |h| => Elems(h[t].committee))
  }
}
