/**
 * The one-shot visibility latch shared by the About, Experience and
 * Certifications sections: a flag that starts false, is set to true by the
 * first input that fires it and is never cleared while the section stays
 * mounted.
 */
module Latch {
  import opened Results

  /** One handler call: the flag is set when the input fires and is otherwise left as it was. */
  function Step<T>(visible: bool, x: T, fires: T -> bool): bool
  {
    if fires(x) then true else visible
  }

  /** The flag after the handler has run on every input of xs, in order. */
  function Run<T>(visible: bool, xs: seq<T>, fires: T -> bool): bool
    decreases |xs|
  {
    if xs == [] then visible else Run(Step(visible, xs[0], fires), xs[1..], fires)
  }

  /** Once set, the flag stays set whatever inputs follow. */
  lemma {:induction false} RunKeepsSet<T>(xs: seq<T>, fires: T -> bool)
    ensures Run(true, xs, fires)
    decreases |xs|
  {
    if xs != [] {
      RunKeepsSet(xs[1..], fires);
    }
  }

  /**
   * After any sequence of inputs the flag is set exactly when it was set
   * before or one of the inputs fired.
   */
  lemma {:induction false} RunIff<T>(visible: bool, xs: seq<T>, fires: T -> bool)
    ensures Run(visible, xs, fires) <==> visible || exists i | 0 <= i < |xs| :: fires(xs[i])
    decreases |xs|
  {
    if xs != [] {
      var v := Step(visible, xs[0], fires);
      RunIff(v, xs[1..], fires);
      if exists i | 0 <= i < |xs| :: fires(xs[i]) {
        var i :| 0 <= i < |xs| && fires(xs[i]);
        if i > 0 {
          assert fires(xs[1..][i - 1]);
        }
      }
      if exists j | 0 <= j < |xs[1..]| :: fires(xs[1..][j]) {
        var j :| 0 <= j < |xs[1..]| && fires(xs[1..][j]);
        assert fires(xs[j + 1]);
      }
    }
  }

  /** The variant a framer-motion element animates to. */
  datatype Variant = Hidden | Visible

  /** The element animates to "visible" exactly when the flag is set. */
  function AnimateTo(visible: bool): (v: Variant)
    ensures v == Visible <==> visible
  {
    if visible then Visible else Hidden
  }

  /**
   * After any run of handler calls the element animates to "visible" exactly
   * when it already did or one of the inputs fired; once "visible", it stays so.
   */
  lemma {:induction false} VisibleAfterRun<T>(visible: bool, xs: seq<T>, fires: T -> bool)
    ensures AnimateTo(Run(visible, xs, fires)) == Visible <==> visible || exists i | 0 <= i < |xs| :: fires(xs[i])
    ensures AnimateTo(visible) == Visible ==> AnimateTo(Run(visible, xs, fires)) == Visible
  {
    RunIff(visible, xs, fires);
  }

  // ----- Intersection observers (Experience and Certifications) -----

  /** An element the page can hand to an observer. */
  type Element = nat

  /** The one field of an IntersectionObserver entry the callbacks read. */
  datatype Entry = Entry(isIntersecting: bool)

  predicate Intersecting(e: Entry) { e.isIntersecting }

  /** observer.observe(ref) when the ref is set; nothing when it is null. */
  function Observe(observed: set<Element>, ref: Option<Element>): (r: set<Element>)
    ensures ref.Some? ==> r == observed + {ref.value}
    ensures ref.None? ==> r == observed
  {
    match ref
    case Some(e) => observed + {e}
    case None => observed
  }

  /** observer.unobserve(ref) when the ref is set; nothing when it is null. */
  function Unobserve(observed: set<Element>, ref: Option<Element>): (r: set<Element>)
    ensures ref.Some? ==> r == observed - {ref.value}
    ensures ref.None? ==> r == observed
  {
    match ref
    case Some(e) => observed - {e}
    case None => observed
  }

  /** Unobserving the element that was observed leaves the observer watching nothing. */
  lemma UnobserveWhatWasObserved(ref: Option<Element>)
    ensures Unobserve(Observe({}, ref), ref) == {}
  {
  }
}
