/**
 * The Hero section (src/components/Hero.tsx): a background flag the iframe's
 * load event sets, and the effect that runs once it is set — a typewriter
 * that empties a text span and then appends one character per scheduled
 * callback, and two hover listeners on the call-to-action button.
 */
module Hero {

  /** The id of the section element. */
  const SectionId := "home"

  /** The href the call-to-action button navigates to. */
  const CtaTarget := "#contact"

  /** The line the typewriter spells out. */
  const TypedText := "Full-Stack Innovator | Bridging Web Development & Electronics Engineering"

  /** The delay before the callback appending character i, in milliseconds (i * 0.03 + 1 seconds). */
  function DelayMs(i: nat): nat {
    30 * i + 1000
  }

  /** One scheduled callback: when it fires and the character it appends. */
  datatype Scheduled = Scheduled(delayMs: nat, ch: char)

  /** The callbacks the forEach over the characters of t schedules, one per character, in index order. */
  function Schedule(t: string): (s: seq<Scheduled>)
    ensures |s| == |t|
    ensures forall i | 0 <= i < |t| :: s[i].ch == t[i]
  {
    seq(|t|, i requires 0 <= i < |t| => Scheduled(DelayMs(i), t[i]))
  }

  /** Later characters fire strictly later, so the callbacks run in index order. */
  lemma ScheduleIncreasing(t: string)
    ensures forall i, j | 0 <= i < j < |t| :: Schedule(t)[i].delayMs < Schedule(t)[j].delayMs
  {
  }

  /**
   * The first of the callbacks still pending after k have fired is the one
   * for character k, it fires before every other pending one, and after it
   * fires one more character has been typed.
   */
  lemma SchedulePop(t: string, k: nat)
    requires k < |t|
    ensures var p := Schedule(t)[k..];
      && p[0] == Scheduled(DelayMs(k), t[k])
      && p[1..] == Schedule(t)[k + 1..]
      && (forall j | 0 < j < |p| :: p[0].delayMs < p[j].delayMs)
      && t[..k + 1] == t[..k] + [t[k]]
  {
    var p := Schedule(t)[k..];
    forall j | 0 < j < |p| ensures p[0].delayMs < p[j].delayMs {
      assert p[j] == Schedule(t)[k + j];
    }
  }

  /** Appending the scheduled characters in firing order spells out t. */
  function Appended(s: seq<Scheduled>): (text: string)
    ensures |text| == |s|
    ensures forall i | 0 <= i < |s| :: text[i] == s[i].ch
  {
    if s == [] then "" else Appended(s[..|s| - 1]) + [s[|s| - 1].ch]
  }

  /** The first k callbacks append exactly the first k characters. */
  lemma AppendedPrefix(t: string, k: nat)
    requires k <= |t|
    ensures Appended(Schedule(t)[..k]) == t[..k]
  {
  }

  /** The forEach at the heart of the effect: one callback per character of t. */
  method BuildSchedule(t: string) returns (s: seq<Scheduled>)
    ensures s == Schedule(t)
  {
    s := [];
    var i := 0;
    while i < |t|
      invariant 0 <= i <= |t|
      invariant s == Schedule(t)[..i]
    {
      s := s + [Scheduled(DelayMs(i), t[i])];
      i := i + 1;
    }
  }

  /** The two hover events the effect listens for on the button. */
  datatype HoverEvent = MouseEnter | MouseLeave

  class HeroSection {
    var mounted: bool
    var is3DLoaded: bool
    /** Whether typingTextRef and cursorRef point at their spans. */
    var typingAttached: bool
    var cursorAttached: bool
    /** Whether ctaRef points at the button. */
    var ctaAttached: bool
    /** The typing span's textContent. */
    var text: string
    /** The typewriter callbacks not yet fired, earliest first. */
    var pending: seq<Scheduled>
    /** The hover listeners registered on the button. */
    var ctaListeners: set<HoverEvent>
    /** Whether the effect returned its cleanup. */
    var cleanupRegistered: bool
    /** Whether the effect scheduled the typewriter, and how many of its callbacks have fired. */
    ghost var typing: bool
    ghost var fired: nat

    ghost predicate Valid()
      reads this
    {
      && (typing ==>
            && fired <= |TypedText|
            && pending == Schedule(TypedText)[fired..]
            && (typingAttached ==> text == TypedText[..fired]))
      && (!typing ==> pending == [] && text == "")
      && (typing || cleanupRegistered ==> is3DLoaded)
      && ctaListeners == (if cleanupRegistered then {MouseEnter, MouseLeave} else {})
    }

    /**
     * The first render and commit: the refs attach as given and the effect
     * runs with is3DLoaded false, which does nothing.
     */
    constructor (typingAttached: bool, cursorAttached: bool, ctaAttached: bool)
      ensures Valid()
      ensures mounted && !is3DLoaded && text == "" && pending == [] && ctaListeners == {} && !cleanupRegistered
      ensures ShowsFallback()
      ensures this.typingAttached == typingAttached && this.cursorAttached == cursorAttached
      ensures this.ctaAttached == ctaAttached
    {
      mounted := true;
      is3DLoaded := false;
      this.typingAttached := typingAttached;
      this.cursorAttached := cursorAttached;
      this.ctaAttached := ctaAttached;
      text := "";
      pending := [];
      ctaListeners := {};
      cleanupRegistered := false;
      typing := false;
      fired := 0;
    }

    /** Whether the gradient fallback is drawn behind the iframe. */
    function ShowsFallback(): (shown: bool)
      reads this
      ensures shown <==> !is3DLoaded
    {
      !is3DLoaded
    }

    /**
     * The iframe's load event sets the flag. The effect depends on the flag,
     * so it runs again only when the flag changes: on the first load.
     */
    method OnLoad()
      requires Valid() && mounted
      modifies this
      ensures Valid() && is3DLoaded && mounted
      ensures !ShowsFallback()
      ensures old(is3DLoaded) ==> text == old(text) && pending == old(pending) && ctaListeners == old(ctaListeners)
      ensures !old(is3DLoaded) && typingAttached && cursorAttached ==> text == "" && pending == Schedule(TypedText)
      ensures !old(is3DLoaded) && !(typingAttached && cursorAttached) ==> text == old(text) && pending == old(pending)
      ensures !old(is3DLoaded) && ctaAttached ==> ctaListeners == {MouseEnter, MouseLeave}
      ensures !old(is3DLoaded) && !ctaAttached ==> ctaListeners == old(ctaListeners)
      ensures typingAttached == old(typingAttached) && cursorAttached == old(cursorAttached)
      ensures ctaAttached == old(ctaAttached)
    {
      if !is3DLoaded {
        is3DLoaded := true;
        RunEffect();
      }
    }

    /** The effect body once is3DLoaded is true: the typewriter, then the hover listeners. */
    method RunEffect()
      requires Valid() && is3DLoaded && !typing && !cleanupRegistered
      modifies this
      ensures Valid() && is3DLoaded && mounted == old(mounted)
      ensures !ShowsFallback()
      ensures typingAttached && cursorAttached ==> text == "" && pending == Schedule(TypedText)
      ensures !(typingAttached && cursorAttached) ==> text == old(text) && pending == old(pending)
      ensures ctaAttached ==> ctaListeners == {MouseEnter, MouseLeave} && cleanupRegistered
      ensures !ctaAttached ==> ctaListeners == old(ctaListeners) && !cleanupRegistered
      ensures typingAttached == old(typingAttached) && cursorAttached == old(cursorAttached)
      ensures ctaAttached == old(ctaAttached)
    {
      if typingAttached && cursorAttached {
        text := "";
        pending := BuildSchedule(TypedText);
        typing := true;
        fired := 0;
      }
      if ctaAttached {
        ctaListeners := ctaListeners + {MouseEnter, MouseLeave};
        cleanupRegistered := true;
      }
    }

    /**
     * The earliest pending callback fires: it appends its character when the
     * typing span is still attached and otherwise changes nothing.
     */
    method FireNext()
      requires Valid() && pending != []
      modifies this
      ensures Valid()
      ensures forall j | 0 < j < |old(pending)| :: old(pending)[0].delayMs < old(pending)[j].delayMs
      ensures pending == old(pending)[1..]
      ensures text == if typingAttached then old(text) + [old(pending)[0].ch] else old(text)
      ensures typingAttached == old(typingAttached) && ctaListeners == old(ctaListeners)
      ensures is3DLoaded == old(is3DLoaded) && mounted == old(mounted)
      ensures ShowsFallback() == old(ShowsFallback())
      ensures cursorAttached == old(cursorAttached) && ctaAttached == old(ctaAttached)
    {
      SchedulePop(TypedText, fired);
      var next := pending[0];
      pending := pending[1..];
      if typingAttached {
        text := text + [next.ch];
      }
      fired := fired + 1;
    }

    /** Unmount: React detaches the refs, then the cleanup removes the two hover listeners it added. */
    method Unmount()
      requires Valid()
      modifies this
      ensures Valid() && !mounted
      ensures !typingAttached && !cursorAttached && !ctaAttached
      ensures ctaListeners == {} && !cleanupRegistered
      ensures old(cleanupRegistered) ==> old(ctaListeners) == {MouseEnter, MouseLeave}
      ensures text == old(text) && pending == old(pending) && is3DLoaded == old(is3DLoaded)
      ensures ShowsFallback() == old(ShowsFallback())
    {
      mounted := false;
      typingAttached := false;
      cursorAttached := false;
      ctaAttached := false;
      if cleanupRegistered {
        ctaListeners := ctaListeners - {MouseEnter, MouseLeave};
        cleanupRegistered := false;
      }
    }
  }

  /** Once every callback has fired with the span attached, the span holds exactly the line. */
  lemma TypingComplete(h: HeroSection)
    requires h.Valid() && h.typing && h.typingAttached && h.pending == []
    ensures h.text == TypedText
  {
    assert |Schedule(TypedText)[h.fired..]| == 0;
  }

  /** While the span is attached, its text is always a prefix of the line. */
  lemma TypingPrefix(h: HeroSection)
    requires h.Valid() && h.typingAttached
    ensures h.text <= TypedText
  {
  }
}
