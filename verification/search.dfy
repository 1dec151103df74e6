/** Sequential search with the first match winning, the shape of every
    `for candidate in ...: if ok: return candidate` loop in the cracker. */
module Search {
  import opened Wrappers

  /** Python's `if not given: given = default`: `None` and the empty list
      both stand for the default list. */
  function OrDefault<T>(given: Option<seq<T>>, default: seq<T>): seq<T> {
    match given
    case Some(w) => if |w| > 0 then w else default
    case None => default
  }

  /** Position of the first element satisfying `p`. */
  function FirstIndex<T>(xs: seq<T>, p: T -> bool): (r: Option<nat>)
    ensures r.Some? ==> r.value < |xs| && p(xs[r.value])
    ensures r.Some? ==> forall j :: 0 <= j < r.value ==> !p(xs[j])
    ensures r.None? ==> forall j :: 0 <= j < |xs| ==> !p(xs[j])
  {
    if |xs| == 0 then None
    else if p(xs[0]) then Some(0)
    else
      match FirstIndex(xs[1..], p)
      case None => None
      case Some(i) => Some(i + 1)
  }

  /** The first element satisfying `p`, or `None` when no element does. */
  function FirstMatch<T>(xs: seq<T>, p: T -> bool): (r: Option<T>)
    ensures r.None? <==> forall j :: 0 <= j < |xs| ==> !p(xs[j])
    ensures r.Some? ==> r.value in xs && p(r.value)
    ensures forall k :: 0 <= k < |xs| && p(xs[k]) && (forall j :: 0 <= j < k ==> !p(xs[j])) ==> r == Some(xs[k])
  {
    match FirstIndex(xs, p)
    case None => None
    case Some(i) => Some(xs[i])
  }

  /** Searching a concatenation searches the first part, then the second. */
  lemma FirstMatchAppend<T>(xs: seq<T>, ys: seq<T>, p: T -> bool)
    ensures FirstMatch(xs + ys, p) == (if FirstMatch(xs, p).Some? then FirstMatch(xs, p) else FirstMatch(ys, p))
  {
    var zs := xs + ys;
    if FirstMatch(xs, p).None? {
      if FirstMatch(ys, p).Some? {
        var k := FirstIndex(ys, p).value;
        assert zs[|xs| + k] == ys[k];
        assert forall j :: 0 <= j < |xs| + k ==> !p(zs[j]) by {
          forall j | 0 <= j < |xs| + k
            ensures !p(zs[j])
          {
            if j < |xs| { assert zs[j] == xs[j]; } else { assert zs[j] == ys[j - |xs|]; }
          }
        }
      } else {
        assert forall j :: 0 <= j < |zs| ==> !p(zs[j]) by {
          forall j | 0 <= j < |zs|
            ensures !p(zs[j])
          {
            if j < |xs| { assert zs[j] == xs[j]; } else { assert zs[j] == ys[j - |xs|]; }
          }
        }
      }
    } else {
      var k := FirstIndex(xs, p).value;
      assert zs[k] == xs[k];
      assert forall j :: 0 <= j < k ==> zs[j] == xs[j];
    }
  }

  /** Predicates that agree on every element find the same position. */
  lemma {:induction false} FirstIndexCongruence<T>(xs: seq<T>, p: T -> bool, q: T -> bool)
    requires forall i :: 0 <= i < |xs| ==> p(xs[i]) == q(xs[i])
    ensures FirstIndex(xs, p) == FirstIndex(xs, q)
  {
    if |xs| > 0 {
      assert forall i :: 0 <= i < |xs| - 1 ==> xs[1..][i] == xs[i + 1];
      FirstIndexCongruence(xs[1..], p, q);
    }
  }

  /** Predicates that agree on every element find the same element. */
  lemma FirstMatchCongruence<T>(xs: seq<T>, p: T -> bool, q: T -> bool)
    requires forall i :: 0 <= i < |xs| ==> p(xs[i]) == q(xs[i])
    ensures FirstMatch(xs, p) == FirstMatch(xs, q)
  {
    FirstIndexCongruence(xs, p, q);
  }
}
