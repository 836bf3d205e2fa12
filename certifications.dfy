/**
 * The certificate carousel (src/components/Certifications.tsx): a list of
 * certificate records and, in a parallel list, their images; an index into
 * both that a timer advances every five seconds and a click on a card sets;
 * a download button whose file name is derived from the issuer; and the
 * section's one-shot visibility latch.
 */
module Certifications {
  import opened Results
  import Latch

  /** The id of the section the carousel is rendered in. */
  const SectionId := "certifications"

  datatype Certification = Certification(
    title: string, issuer: string, date: string, description: string, skills: seq<string>)

  const CertificationImages: seq<string> := [
    "/certificates/webgeon-cert.jpg",
    "/certificates/IBM.AI.jpg",
    "/certificates/embedded-cert.jpg",
    "/certificates/python.jpg",
    "/certificates/vega-cert.jpg"
  ]

  const CertificationRecords: seq<Certification> := [
    Certification("Web Developer Intern", "WebGeon Solutions", "Jan 2025 - Jun 2025",
      "Completed 6-month intensive internship focusing on modern web development technologies including React, Next.js, and Node.js.",
      ["React", "Next.js", "Tailwind CSS", "Node.js", "PostgreSQL"]),
    Certification("Generative AI powered application", "IBM through Coursera", "Jul 2024",
      "Specialized Course covering core concepts of generative AI ,Build generative AI-powered applications and chatbots using LLMs, retrieval-augmented generation(RAG),Integrate speech-to-text (STT) and text-to-speech (TTS) technologies",
      ["Prompt Engineering", "Generative AI", "Artificial Intelligence and Machine Learning (AI/ML)", "IBM Cloud"]),
    Certification("Embedded Systems Intern", "Codtech Solutions", "Aug 2023 - Sept 2023",
      "Hands-on training in embedded systems design, microcontroller programming, and IoT applications.",
      ["C/C++", "Arduino", "Esp", "IoT Protocols"]),
    Certification("Python Full Stack Development", "Techmaghi", "Jun 2021 - Aug 2021",
      "Comprehensive training in Python backend development with Django and frontend integration.",
      ["Python", "Django", "HTML/CSS", "JavaScript", "REST APIs"]),
    Certification("Workshop on Vega Processor", "CDAC Trivandrum", "June 2024",
      "Hands on projects using sensors,led etc with microcontroller.",
      ["app controlled functions", "Microcontrollers", "sensors", "motors"])
  ]

  // ----- The rotating index -----

  /** The interval callback: the index after prev among n cards. */
  function Next(prev: nat, n: nat): (r: nat)
    requires prev < n
    ensures r < n
    ensures r == if prev + 1 < n then prev + 1 else 0
  {
    (prev + 1) % n
  }

  /** The index after k ticks with no click in between. */
  function Advance(i: nat, k: nat, n: nat): (r: nat)
    requires i < n
    ensures r < n
    decreases k
  {
    if k == 0 then i else Advance(Next(i, n), k - 1, n)
  }

  /** Before the index reaches the last card, each tick moves it one card on. */
  lemma {:induction false} AdvanceUp(i: nat, k: nat, n: nat)
    requires i + k < n
    ensures Advance(i, k, n) == i + k
    decreases k
  {
    if k > 0 {
      AdvanceUp(i + 1, k - 1, n);
    }
  }

  /** a ticks then b ticks are a + b ticks. */
  lemma {:induction false} AdvanceCompose(i: nat, a: nat, b: nat, n: nat)
    requires i < n
    ensures Advance(i, a + b, n) == Advance(Advance(i, a, n), b, n)
    decreases a
  {
    if a > 0 {
      AdvanceCompose(Next(i, n), a - 1, b, n);
    }
  }

  /** n consecutive ticks with no click bring the index back to where it started. */
  lemma FullCycle(i: nat, n: nat)
    requires i < n
    ensures Advance(i, n, n) == i
  {
    AdvanceUp(i, n - 1 - i, n);
    assert Advance(i, n - i, n) == 0 by {
      AdvanceCompose(i, n - 1 - i, 1, n);
    }
    AdvanceCompose(i, n - i, i, n);
    AdvanceUp(0, i, n);
  }

  /** Whether the card at index is drawn with the highlighted border and ring. */
  predicate IsHighlighted(activeCert: nat, index: nat) {
    activeCert == index
  }

  /** Exactly one card is highlighted: the active one. */
  lemma HighlightedCards(activeCert: nat)
    requires activeCert < |CertificationRecords|
    ensures (set i: nat | i < |CertificationRecords| && IsHighlighted(activeCert, i)) == {activeCert}
  {
  }

  /** The badge of the card at index: only the first card is the latest. */
  function Badge(index: nat): (badge: string)
    ensures badge == "Latest" <==> index == 0
  {
    if index == 0 then "Latest" else "Completed"
  }

  /** Of all the cards, exactly one is badged "Latest": the first. */
  lemma OneLatestCard()
    ensures (set i: nat | i < |CertificationRecords| && Badge(i) == "Latest") == {0}
  {
    assert Badge(0) == "Latest";
  }

  // ----- Download file names -----

  /**
   * The code points JavaScript's \s matches: WhiteSpace and LineTerminator
   * (sections 12.2 and 12.3 of ECMA-262), the space separators included.
   */
  predicate IsJsWhitespace(c: char) {
    var u := c as int;
    || 0x09 <= u <= 0x0D || u == 0x20 || u == 0xA0 || u == 0x1680
    || 0x2000 <= u <= 0x200A || u == 0x2028 || u == 0x2029 || u == 0x202F
    || u == 0x205F || u == 0x3000 || u == 0xFEFF
  }

  predicate HasNoWhitespace(s: string) {
    forall i | 0 <= i < |s| :: !IsJsWhitespace(s[i])
  }

  /** s without its leading run of whitespace. */
  function DropWhitespace(s: string): (r: string)
    ensures |r| <= |s|
    ensures r == [] || !IsJsWhitespace(r[0])
    decreases |s|
  {
    if s != [] && IsJsWhitespace(s[0]) then DropWhitespace(s[1..]) else s
  }

  /** s.replace(/\s+/g, '-'): every maximal run of whitespace becomes one '-'. */
  function ReplaceWhitespaceRuns(s: string): string
    decreases |s|
  {
    if s == [] then []
    else if IsJsWhitespace(s[0]) then "-" + ReplaceWhitespaceRuns(DropWhitespace(s))
    else [s[0]] + ReplaceWhitespaceRuns(s[1..])
  }

  /** No whitespace survives the replacement. */
  lemma {:induction false} ReplaceLeavesNoWhitespace(s: string)
    ensures HasNoWhitespace(ReplaceWhitespaceRuns(s))
    decreases |s|
  {
    if s != [] {
      if IsJsWhitespace(s[0]) {
        ReplaceLeavesNoWhitespace(DropWhitespace(s));
      } else {
        ReplaceLeavesNoWhitespace(s[1..]);
      }
    }
  }

  /** Text without whitespace is left as it is. */
  lemma {:induction false} ReplaceKeepsPlainText(s: string)
    requires HasNoWhitespace(s)
    ensures ReplaceWhitespaceRuns(s) == s
    decreases |s|
  {
    if s != [] {
      assert !IsJsWhitespace(s[0]);
      ReplaceKeepsPlainText(s[1..]);
    }
  }

  /** Dropping a leading run keeps a last character that is not whitespace. */
  lemma {:induction false} DropWhitespaceKeepsLast(a: string)
    requires a != [] && !IsJsWhitespace(a[|a| - 1])
    ensures var d := DropWhitespace(a); d != [] && d[|d| - 1] == a[|a| - 1]
    decreases |a|
  {
    if IsJsWhitespace(a[0]) {
      DropWhitespaceKeepsLast(a[1..]);
    }
  }

  /** A whitespace run that ends inside a ends there: appending text after a does not reach it. */
  lemma {:induction false} DropWhitespaceConcat(a: string, t: string)
    requires a != [] && !IsJsWhitespace(a[|a| - 1])
    ensures DropWhitespace(a + t) == DropWhitespace(a) + t
    decreases |a|
  {
    if IsJsWhitespace(a[0]) {
      assert (a + t)[1..] == a[1..] + t;
      DropWhitespaceConcat(a[1..], t);
    }
  }

  /** Replacement works piece by piece when the seam is not inside a whitespace run. */
  lemma {:induction false} ReplaceConcat(a: string, t: string)
    requires a == [] || !IsJsWhitespace(a[|a| - 1])
    ensures ReplaceWhitespaceRuns(a + t) == ReplaceWhitespaceRuns(a) + ReplaceWhitespaceRuns(t)
    decreases |a|, 1
  {
    if a == [] {
      assert a + t == t;
    } else if IsJsWhitespace(a[0]) {
      ReplaceConcatRun(a, t);
    } else {
      ReplaceConcatChar(a, t);
    }
  }

  /** ReplaceConcat when a starts with a whitespace run. */
  lemma {:induction false} ReplaceConcatRun(a: string, t: string)
    requires a != [] && IsJsWhitespace(a[0]) && !IsJsWhitespace(a[|a| - 1])
    ensures ReplaceWhitespaceRuns(a + t) == ReplaceWhitespaceRuns(a) + ReplaceWhitespaceRuns(t)
    decreases |a|, 0
  {
    var d := DropWhitespace(a);
    DropWhitespaceConcat(a, t);
    DropWhitespaceKeepsLast(a);
    assert (a + t)[0] == a[0];
    assert ReplaceWhitespaceRuns(a + t) == "-" + ReplaceWhitespaceRuns(d + t);
    ReplaceConcat(d, t);
  }

  /** ReplaceConcat when a starts with a character that is not whitespace. */
  lemma {:induction false} ReplaceConcatChar(a: string, t: string)
    requires a != [] && !IsJsWhitespace(a[0]) && !IsJsWhitespace(a[|a| - 1])
    ensures ReplaceWhitespaceRuns(a + t) == ReplaceWhitespaceRuns(a) + ReplaceWhitespaceRuns(t)
    decreases |a|, 0
  {
    assert (a + t)[0] == a[0];
    assert (a + t)[1..] == a[1..] + t;
    assert ReplaceWhitespaceRuns(a + t) == [a[0]] + ReplaceWhitespaceRuns(a[1..] + t);
    ReplaceConcat(a[1..], t);
  }

  /**
   * A maximal whitespace run w between a and b becomes exactly one '-',
   * and a and b are replaced on their own.
   */
  lemma ReplaceRun(a: string, w: string, b: string)
    requires a == [] || !IsJsWhitespace(a[|a| - 1])
    requires w != [] && forall i | 0 <= i < |w| :: IsJsWhitespace(w[i])
    requires b == [] || !IsJsWhitespace(b[0])
    ensures ReplaceWhitespaceRuns(a + (w + b)) ==
      ReplaceWhitespaceRuns(a) + ("-" + ReplaceWhitespaceRuns(b))
  {
    ReplaceConcat(a, w + b);
    ReplaceLeadingRun(w, b);
  }

  /** A whitespace run in front of b becomes one '-' in front of b's replacement. */
  lemma ReplaceLeadingRun(w: string, b: string)
    requires w != [] && forall i | 0 <= i < |w| :: IsJsWhitespace(w[i])
    requires b == [] || !IsJsWhitespace(b[0])
    ensures ReplaceWhitespaceRuns(w + b) == "-" + ReplaceWhitespaceRuns(b)
  {
    assert (w + b)[0] == w[0];
    DropWhitespaceRun(w, b);
  }

  lemma {:induction false} DropWhitespaceRun(w: string, b: string)
    requires w != [] && forall i | 0 <= i < |w| :: IsJsWhitespace(w[i])
    requires b == [] || !IsJsWhitespace(b[0])
    ensures DropWhitespace(w + b) == b
    decreases |w|
  {
    assert (w + b)[1..] == w[1..] + b;
    if |w| > 1 {
      DropWhitespaceRun(w[1..], b);
    } else {
      assert w[1..] + b == b;
    }
  }

  /** The name the Download button passes: the issuer with its whitespace runs dashed, then "-certificate.jpg". */
  function CertificateFileName(issuer: string): string
  {
    ReplaceWhitespaceRuns(issuer) + "-certificate.jpg"
  }

  /** A derived file name holds no whitespace. */
  lemma FileNameHasNoWhitespace(issuer: string)
    ensures HasNoWhitespace(CertificateFileName(issuer))
  {
    ReplaceLeavesNoWhitespace(issuer);
    var r := ReplaceWhitespaceRuns(issuer);
    var f := CertificateFileName(issuer);
    forall i | 0 <= i < |f| ensures !IsJsWhitespace(f[i]) {
      if i >= |r| {
        assert f[i] == "-certificate.jpg"[i - |r|];
      }
    }
  }

  /**
   * Two words separated by one whitespace character are joined by one dash,
   * as in "WebGeon Solutions" becoming "WebGeon-Solutions-certificate.jpg".
   */
  lemma TwoWordFileName(a: string, c: char, b: string)
    requires a != [] && HasNoWhitespace(a) && HasNoWhitespace(b) && IsJsWhitespace(c)
    ensures CertificateFileName(a + ([c] + b)) == a + ("-" + b) + "-certificate.jpg"
  {
    ReplaceKeepsPlainText(a);
    ReplaceKeepsPlainText(b);
    ReplaceRun(a, [c], b);
    assert ReplaceWhitespaceRuns(a + ([c] + b)) == a + ("-" + b);
  }

  /** handleDownload's download attribute: the given name, or "certificate.jpg" when it is absent or empty. */
  function DownloadName(filename: Option<string>): (name: string)
    ensures filename.Some? && filename.value != [] ==> name == filename.value
    ensures filename.None? || filename.value == [] ==> name == "certificate.jpg"
  {
    match filename
    case Some(f) => if f != [] then f else "certificate.jpg"
    case None => "certificate.jpg"
  }

  /**
   * The Download button always passes a derived name, which is never empty,
   * so the "certificate.jpg" default is never what the file is saved as.
   */
  lemma DerivedNameIsUsed(issuer: string)
    ensures DownloadName(Some(CertificateFileName(issuer))) == CertificateFileName(issuer)
    ensures DownloadName(Some(CertificateFileName(issuer))) != "certificate.jpg"
  {
    var f := CertificateFileName(issuer);
    assert f[|f| - 16..] == "-certificate.jpg";
    assert |f| >= 16 && f != "certificate.jpg";
  }

  // ----- The component -----

  class CertificationsSection {
    /** The card shown in the detail panel. */
    var activeCert: nat
    var isVisible: bool
    /** The elements the intersection observer watches. */
    var observed: set<Latch.Element>
    /** The element captured when the effect ran, unobserved again by the cleanup. */
    var capturedRef: Option<Latch.Element>
    /** Whether the five-second interval is armed. */
    var intervalArmed: bool

    ghost predicate Valid()
      reads this
    {
      && |CertificationImages| == |CertificationRecords|
      && activeCert < |CertificationRecords|
    }

    /** The first render: the first card, the section hidden, nothing registered. */
    constructor ()
      ensures Valid()
      ensures activeCert == 0 && !isVisible && observed == {} && capturedRef == None && !intervalArmed
    {
      activeCert := 0;
      isVisible := false;
      observed := {};
      capturedRef := None;
      intervalArmed := false;
    }

    /** The two effects after the first render: observe the section when its element exists; arm the interval. */
    method Mount(sectionRef: Option<Latch.Element>)
      requires Valid()
      modifies this
      ensures Valid()
      ensures observed == Latch.Observe(old(observed), sectionRef) && capturedRef == sectionRef && intervalArmed
      ensures activeCert == old(activeCert) && isVisible == old(isVisible)
    {
      capturedRef := sectionRef;
      observed := Latch.Observe(observed, sectionRef);
      intervalArmed := true;
    }

    /** A tick of the interval moves to the next card, wrapping after the last one. */
    method Tick()
      requires Valid()
      modifies this
      ensures Valid()
      ensures activeCert == if old(intervalArmed) then Next(old(activeCert), |CertificationRecords|) else old(activeCert)
      ensures isVisible == old(isVisible) && observed == old(observed) && intervalArmed == old(intervalArmed)
      ensures capturedRef == old(capturedRef)
    {
      if intervalArmed {
        activeCert := Next(activeCert, |CertificationRecords|);
      }
    }

    /** A click on card k shows that card. */
    method SelectCard(k: nat)
      requires Valid() && k < |CertificationRecords|
      modifies this
      ensures Valid()
      ensures activeCert == k
      ensures isVisible == old(isVisible) && observed == old(observed) && intervalArmed == old(intervalArmed)
      ensures capturedRef == old(capturedRef)
    {
      activeCert := k;
    }

    /** The observer callback, delivered only while the section is observed. */
    method OnIntersection(entry: Latch.Entry)
      requires Valid()
      modifies this
      ensures Valid()
      ensures isVisible == if observed != {} then Latch.Step(old(isVisible), entry, Latch.Intersecting) else old(isVisible)
      ensures old(isVisible) ==> isVisible
      ensures activeCert == old(activeCert) && observed == old(observed) && intervalArmed == old(intervalArmed)
      ensures capturedRef == old(capturedRef)
    {
      if observed != {} {
        isVisible := Latch.Step(isVisible, entry, Latch.Intersecting);
      }
    }

    /** The cleanups: unobserve the element captured at mount and clear the interval. */
    method Unmount()
      requires Valid()
      modifies this
      ensures Valid()
      ensures observed == Latch.Unobserve(old(observed), old(capturedRef)) && !intervalArmed
      ensures activeCert == old(activeCert) && isVisible == old(isVisible)
    {
      observed := Latch.Unobserve(observed, capturedRef);
      intervalArmed := false;
    }

    /** The image and the record the detail panel shows. */
    function ActiveCertificate(): (shown: (string, Certification))
      requires Valid()
      reads this
      ensures shown.0 in CertificationImages && shown.1 in CertificationRecords
    {
      (CertificationImages[activeCert], CertificationRecords[activeCert])
    }

    /** The name the Download button gives the file of the active certificate. */
    function ActiveDownloadName(): (name: string)
      requires Valid()
      reads this
      ensures name == CertificateFileName(CertificationRecords[activeCert].issuer)
      ensures HasNoWhitespace(name)
    {
      DerivedNameIsUsed(CertificationRecords[activeCert].issuer);
      FileNameHasNoWhitespace(CertificationRecords[activeCert].issuer);
      DownloadName(Some(CertificateFileName(CertificationRecords[activeCert].issuer)))
    }
  }

  /**
   * A click on card k while the rotation runs, then the next interval tick:
   * the carousel shows the card after k, wrapping to the first after the last.
   */
  method ClickThenTick(section: CertificationsSection, k: nat)
    requires section.Valid() && section.intervalArmed && k < |CertificationRecords|
    modifies section
    ensures section.Valid()
    ensures section.activeCert == Next(k, |CertificationRecords|)
    ensures k + 1 < |CertificationRecords| ==> section.activeCert == k + 1
    ensures k + 1 == |CertificationRecords| ==> section.activeCert == 0
  {
    section.SelectCard(k);
    section.Tick();
  }
}
