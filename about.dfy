/**
 * The About section (src/components/About.tsx): a visibility flag set by a
 * window scroll listener, and by one check made at mount, once the
 * section's top edge has come within three quarters of the window height.
 */
module About {
  import Latch

  /** The id of the section element the scroll check looks up. */
  const SectionId := "about"

  /**
   * What one check reads from the page: nothing when no element has the
   * section's id, otherwise the element's top edge relative to the viewport
   * and the window's inner height, in CSS pixels.
   */
  datatype Reading = Missing | Layout(top: real, windowHeight: real)

  /** The check fires when the element exists and its top is above 0.75 of the window height. */
  predicate InBand(r: Reading) {
    r.Layout? && r.top < r.windowHeight * 0.75
  }

  class AboutSection {
    var isVisible: bool
    /** Whether handleScroll is registered as a window scroll listener. */
    var listening: bool

    /** The first render: hidden, no listener yet. */
    constructor ()
      ensures !isVisible && !listening
      ensures Variant() == Latch.Hidden
    {
      isVisible := false;
      listening := false;
    }

    /** The variant the section container animates to. */
    function Variant(): Latch.Variant
      reads this
    {
      Latch.AnimateTo(isVisible)
    }

    /** handleScroll: set the flag when the reading is in the band; nothing else. */
    method HandleScroll(r: Reading)
      modifies this
      ensures isVisible == Latch.Step(old(isVisible), r, InBand)
      ensures listening == old(listening)
    {
      if r.Layout? {
        if r.top < r.windowHeight * 0.75 {
          isVisible := true;
        }
      }
    }

    /** The effect: register the listener, then check once straight away. */
    method Mount(initial: Reading)
      modifies this
      ensures listening
      ensures isVisible == Latch.Step(old(isVisible), initial, InBand)
    {
      listening := true;
      HandleScroll(initial);
    }

    /** A window scroll event, which reaches handleScroll only while it is registered. */
    method OnScroll(r: Reading)
      modifies this
      ensures listening == old(listening)
      ensures isVisible == if listening then Latch.Step(old(isVisible), r, InBand) else old(isVisible)
      ensures old(isVisible) ==> isVisible
      ensures old(Variant()) == Latch.Visible ==> Variant() == Latch.Visible
    {
      if listening {
        HandleScroll(r);
      }
    }

    /** The effect's cleanup removes the listener. */
    method Unmount()
      modifies this
      ensures !listening && isVisible == old(isVisible)
    {
      listening := false;
    }
  }

  /** A missing element never fires the check. */
  lemma MissingNeverFires(v: bool)
    ensures Latch.Step(v, Missing, InBand) == v
  {
  }

  /**
   * Over any run of scroll readings the section ends up visible exactly when
   * it already was or one of the readings was in the band.
   */
  lemma ScrollRun(v: bool, rs: seq<Reading>)
    ensures Latch.Run(v, rs, InBand) <==> v || exists i | 0 <= i < |rs| :: InBand(rs[i])
    ensures v ==> Latch.Run(v, rs, InBand)
  {
    Latch.RunIff(v, rs, InBand);
  }
}
