/**
 * The Experience section (src/components/Experience.tsx): a visibility flag
 * set by an IntersectionObserver watching the section heading, which the
 * heading and the timeline both animate from.
 */
module Experience {
  import opened Results
  import Latch

  /** The id of the section element. */
  const SectionId := "experience"

  /**
   * The effect's cleanup as written: it reads experienceRef.current when it
   * runs. On unmount React has already set the ref to null by then, so what
   * it unobserves is refAtCleanup == None.
   */
  function CleanupAsWritten(observed: set<Latch.Element>, refAtCleanup: Option<Latch.Element>): set<Latch.Element>
  {
    Latch.Unobserve(observed, refAtCleanup)
  }

  /** With the ref nulled before the cleanup, the heading stays observed after unmount. */
  lemma CleanupAsWrittenKeepsObserving(e: Latch.Element)
    ensures CleanupAsWritten(Latch.Observe({}, Some(e)), None) == {e}
  {
  }

  /** The cleanup unobserving the element captured when the effect ran. */
  function CleanupCaptured(observed: set<Latch.Element>, captured: Option<Latch.Element>): set<Latch.Element>
  {
    Latch.Unobserve(observed, captured)
  }

  /** Whatever the ref held at mount, the captured cleanup leaves nothing observed. */
  lemma CleanupCapturedReleases(captured: Option<Latch.Element>)
    ensures CleanupCaptured(Latch.Observe({}, captured), captured) == {}
  {
    Latch.UnobserveWhatWasObserved(captured);
  }

  class ExperienceSection {
    var isVisible: bool
    /** experienceRef.current: the heading element while it is mounted. */
    var experienceRef: Option<Latch.Element>
    /** The elements the observer watches. */
    var observed: set<Latch.Element>

    /** The first render, before the effect: hidden, nothing observed. */
    constructor ()
      ensures !isVisible && experienceRef == None && observed == {}
      ensures Variant() == Latch.Hidden
    {
      isVisible := false;
      experienceRef := None;
      observed := {};
    }

    /** The variant both the heading and the timeline animate to. */
    function Variant(): Latch.Variant
      reads this
    {
      Latch.AnimateTo(isVisible)
    }

    /** The commit attaches the ref; the effect then observes it when it is set. */
    method Mount(element: Option<Latch.Element>)
      modifies this
      ensures experienceRef == element
      ensures observed == Latch.Observe(old(observed), element)
      ensures isVisible == old(isVisible)
    {
      experienceRef := element;
      observed := Latch.Observe(observed, experienceRef);
    }

    /**
     * The observer callback on its first entry: set the flag when that entry
     * intersects. Once the heading and the timeline animate to "visible",
     * they keep doing so.
     */
    method OnIntersection(entry: Latch.Entry)
      modifies this
      ensures isVisible == Latch.Step(old(isVisible), entry, Latch.Intersecting)
      ensures entry.isIntersecting ==> Variant() == Latch.Visible
      ensures old(Variant()) == Latch.Visible ==> Variant() == Latch.Visible
      ensures !entry.isIntersecting ==> Variant() == old(Variant())
      ensures experienceRef == old(experienceRef) && observed == old(observed)
    {
      if entry.isIntersecting {
        isVisible := true;
      }
    }

    /**
     * Unmount: React detaches the ref, then the cleanup reads
     * experienceRef.current, finds it null and unobserves nothing.
     */
    method Unmount()
      modifies this
      ensures experienceRef == None
      ensures observed == CleanupAsWritten(old(observed), None)
      ensures observed == old(observed)
      ensures isVisible == old(isVisible)
    {
      experienceRef := None;
      observed := CleanupAsWritten(observed, experienceRef);
    }
  }

  /** Mounting and then unmounting leaves the heading observed whenever it was attached. */
  method MountThenUnmount(element: Option<Latch.Element>) returns (left: set<Latch.Element>)
    ensures left == Latch.Observe({}, element)
    ensures element.Some? ==> left == {element.value}
  {
    var section := new ExperienceSection();
    section.Mount(element);
    section.Unmount();
    left := section.observed;
  }
}
