/**
 * Spreading over a finite successor relation, given as a map from each node
 * to the nodes it spreads to (its keys are the whole universe).  A region
 * spreads to every successor of its nodes that is not in `base`; the
 * closure of a region is where that spreading stops.  The board's flood
 * fill is specified as such a closure.
 */
module Reachability {

  /** Successors stay inside the universe. */
  ghost predicate IsGraph<T>(succ: map<T, set<T>>) {
    forall p :: p in succ ==> succ[p] <= succ.Keys
  }

  /** `region` holds every successor, not in `base`, of each of its nodes. */
  ghost predicate Closed<T>(succ: map<T, set<T>>, base: set<T>, region: set<T>) {
    forall p, q :: p in region && p in succ && q in succ[p] && q !in base ==> q in region
  }

  /** `q` is a successor of some node of `region`. */
  ghost predicate SpreadTo<T>(succ: map<T, set<T>>, region: set<T>, q: T) {
    exists p :: p in region && p in succ && q in succ[p]
  }

  /** One round of spreading. */
  ghost function Expand<T>(succ: map<T, set<T>>, base: set<T>, region: set<T>): (r: set<T>)
    requires IsGraph(succ) && region <= succ.Keys
    ensures region <= r <= succ.Keys
    ensures forall q :: q in r && q !in region ==> q !in base && SpreadTo(succ, region, q)
    ensures r == region ==> Closed(succ, base, region)
  {
    region + set p, q | p in region && p in succ && q in succ[p] && q !in base :: q
  }

  /** Spreads from `region` until nothing changes. */
  ghost function Closure<T>(succ: map<T, set<T>>, base: set<T>, region: set<T>): (r: set<T>)
    requires IsGraph(succ) && region <= succ.Keys
    ensures region <= r <= succ.Keys
    decreases succ.Keys - region
  {
    var next := Expand(succ, base, region);
    if next == region then region
    else
      ShrinksUnexplored(succ.Keys, region, next);
      Closure(succ, base, next)
  }

  lemma ShrinksUnexplored<T>(universe: set<T>, region: set<T>, next: set<T>)
    requires region <= next <= universe && next != region
    ensures universe - next < universe - region
  {
    var x :| x in next && x !in region;
    assert x in universe - region;
  }

  /** The closure is closed, and adds nothing from `base`. */
  lemma {:induction false} ClosureIsClosed<T>(succ: map<T, set<T>>, base: set<T>, region: set<T>)
    requires IsGraph(succ) && region <= succ.Keys
    ensures Closed(succ, base, Closure(succ, base, region))
    ensures Closure(succ, base, region) - region !! base
    decreases succ.Keys - region
  {
    var next := Expand(succ, base, region);
    if next != region {
      ShrinksUnexplored(succ.Keys, region, next);
      ClosureIsClosed(succ, base, next);
    }
  }

  /** The closure lies inside every closed region that contains the start. */
  lemma {:induction false} ClosureIsLeast<T>(succ: map<T, set<T>>, base: set<T>, region: set<T>, t: set<T>)
    requires IsGraph(succ) && region <= t && region <= succ.Keys && Closed(succ, base, t)
    ensures Closure(succ, base, region) <= t
    decreases succ.Keys - region
  {
    var next := Expand(succ, base, region);
    if next != region {
      ShrinksUnexplored(succ.Keys, region, next);
      forall q | q in next ensures q in t {
        if q !in region {
          var p :| p in region && p in succ && q in succ[p];
        }
      }
      ClosureIsLeast(succ, base, next, t);
    }
  }

  /** Every node the closure adds to `start` is a successor of a node of the closure. */
  lemma {:induction false} ClosureIsSupported<T>(succ: map<T, set<T>>, base: set<T>, start: set<T>, region: set<T>)
    requires IsGraph(succ) && start <= region <= succ.Keys
    requires forall q :: q in region && q !in start ==> SpreadTo(succ, region, q)
    ensures forall q :: q in Closure(succ, base, region) && q !in start ==> SpreadTo(succ, Closure(succ, base, region), q)
    decreases succ.Keys - region
  {
    var next := Expand(succ, base, region);
    if next != region {
      ShrinksUnexplored(succ.Keys, region, next);
      forall q | q in next && q !in start ensures SpreadTo(succ, next, q) {
        var p :| p in region && p in succ && q in succ[p];
        assert p in next;
      }
      ClosureIsSupported(succ, base, start, next);
    }
  }

  /** From a node with no successors, nothing spreads. */
  lemma ClosureOfSink<T>(succ: map<T, set<T>>, base: set<T>, c: T)
    requires IsGraph(succ) && c in succ && succ[c] == {}
    ensures Closure(succ, base, {c}) == {c}
  {
    assert Expand(succ, base, {c}) == {c};
  }
}
