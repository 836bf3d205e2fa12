/**
 * The contact form (src/components/Contact.tsx): three text fields, updated
 * one at a time, and a submit handler that builds a mailto: link from them
 * with encodeURIComponent, hands it to the browser and records the outcome.
 */
module Contact {
  import opened Results
  import opened Utf16
  import Uri

  /** The id of the section the contact form is rendered in. */
  const SectionId := "contact"

  /** The fixed recipient of every message. */
  const Recipient := "sreehariwsree@gmail.com"

  /** The recipient and the two header field names, as code units. */
  const RecipientUnits: JsString := Lit(Recipient)
  const SubjectKey: JsString := Lit("subject")
  const BodyKey: JsString := Lit("body")

  /** The three inputs, named by their `name` attribute. */
  datatype Field = Name | Email | Message

  datatype Status = Idle | Success | Error

  /** The subject line of the message. */
  function Subject(name: JsString): JsString
  {
    Lit("Message from ") + name
  }

  /** The body of the message: the text, then the sender's name and address. */
  function Body(name: JsString, email: JsString, message: JsString): JsString
  {
    message + Lit("\n\nFrom: ") + name + Lit("\nEmail: ") + email
  }

  /** The link handleSubmit navigates to, or the URIError encodeURIComponent throws. */
  function MailtoLink(name: JsString, email: JsString, message: JsString): Result<JsString, Uri.URIError>
  {
    match Uri.Encode(Subject(name))
    case Err(e) => Err(e)
    case Ok(subject) =>
      match Uri.Encode(Body(name, email, message))
      case Err(e) => Err(e)
      case Ok(body) => Ok(Link(subject, body))
  }

  /** The template of the link, filled with the already encoded subject and body. */
  function Link(subject: JsString, body: JsString): JsString
  {
    Lit("mailto:") + RecipientUnits + Lit("?subject=") + subject + Lit("&body=") + body
  }

  // ----- Reading a mailto URI back (section 2 of RFC 6068) -----

  /** The index of the first occurrence of u in s. */
  function IndexOf(s: JsString, u: CodeUnit): (r: Option<nat>)
    ensures r.None? <==> u !in s
    ensures r.Some? ==> r.value < |s| && s[r.value] == u && u !in s[..r.value]
  {
    if s == [] then None
    else if s[0] == u then Some(0)
    else
      match IndexOf(s[1..], u)
      case None => None
      case Some(i) =>
        assert s[..i + 1] == [s[0]] + s[1..][..i];
        Some(i + 1)
  }

  /** The pieces of s between occurrences of sep. */
  function Split(s: JsString, sep: CodeUnit): (r: seq<JsString>)
    decreases |s|
  {
    match IndexOf(s, sep)
    case None => [s]
    case Some(i) => [s[..i]] + Split(s[i + 1..], sep)
  }

  /** One "hfname=hfvalue" pair of the query, values still percent-encoded. */
  datatype HeaderField = HeaderField(hname: JsString, hvalue: JsString)

  datatype MailtoUri = MailtoUri(to: JsString, fields: seq<HeaderField>)

  function ParseField(f: JsString): HeaderField
  {
    match IndexOf(f, '=' as int)
    case None => HeaderField(f, [])
    case Some(i) => HeaderField(f[..i], f[i + 1..])
  }

  /**
   * Reads "mailto:" to ["?" hfield *("&" hfield)]: the recipient runs up to
   * the first '?', fields are separated by '&' and a field's name ends at
   * its first '='.
   */
  function ParseMailto(link: JsString): Option<MailtoUri>
  {
    var scheme := Lit("mailto:");
    if |link| < |scheme| || link[..|scheme|] != scheme then None
    else
      var rest := link[|scheme|..];
      match IndexOf(rest, '?' as int)
      case None => Some(MailtoUri(rest, []))
      case Some(q) => Some(MailtoUri(rest[..q], ParseQuery(rest[q + 1..])))
  }

  /** The fields of a query: its '&'-separated pieces, each read as a field. */
  function ParseQuery(query: JsString): seq<HeaderField>
  {
    var parts := Split(query, '&' as int);
    seq(|parts|, i requires 0 <= i < |parts| => ParseField(parts[i]))
  }

  lemma IndexOfSeam(a: JsString, b: JsString, u: CodeUnit)
    requires u !in a && b != [] && b[0] == u
    ensures IndexOf(a + b, u) == Some(|a|)
  {
    var s := a + b;
    assert s[|a|] == u;
  }

  lemma SplitOnce(a: JsString, b: JsString, sep: CodeUnit)
    requires sep !in a && sep !in b
    ensures Split(a + [sep] + b, sep) == [a, b]
  {
    var s := a + [sep] + b;
    IndexOfSeam(a, [sep] + b, sep);
    assert s == a + ([sep] + b);
    assert s[..|a|] == a && s[|a| + 1..] == b;
  }

  lemma FieldOf(key: JsString, value: JsString)
    requires '=' as int !in key && '=' as int !in value
    ensures ParseField(key + [ '=' as int ] + value) == HeaderField(key, value)
  {
    var f := key + ['=' as int] + value;
    IndexOfSeam(key, ['=' as int] + value, '=' as int);
    assert f == key + (['=' as int] + value);
    assert f[..|key|] == key && f[|key| + 1..] == value;
  }

  /** Neither the recipient nor the field names hold a delimiter of the mailto syntax. */
  lemma KeysExclude()
    ensures '?' as int !in RecipientUnits
    ensures '&' as int !in SubjectKey && '=' as int !in SubjectKey
    ensures '&' as int !in BodyKey && '=' as int !in BodyKey
  {
    assert IsAscii(Recipient) && IsAscii("subject") && IsAscii("body");
    LitExcludes(Recipient, '?');
    LitExcludes("subject", '&');
    LitExcludes("subject", '=');
    LitExcludes("body", '&');
    LitExcludes("body", '=');
  }

  /** The literals between the recipient and the values are a delimiter, a field name and '='. */
  lemma DelimiterLiterals()
    ensures Lit("?subject=") == ['?' as int] + SubjectKey + ['=' as int]
    ensures Lit("&body=") == ['&' as int] + BodyKey + ['=' as int]
  {
    assert IsAscii("?") && IsAscii("subject") && IsAscii("=") && IsAscii("&") && IsAscii("body");
    LitConcat("?", "subject");
    LitConcat("?subject", "=");
    LitConcat("&", "body");
    LitConcat("&body", "=");
  }

  /** The template splits into the scheme, the recipient, '?', the subject field, '&' and the body field. */
  lemma LinkPieces(es: JsString, eb: JsString)
    ensures Link(es, eb) == Lit("mailto:") + (RecipientUnits + (['?' as int] +
      ((SubjectKey + ['=' as int] + es) + (['&' as int] + (BodyKey + ['=' as int] + eb)))))
  {
    DelimiterLiterals();
    var s, r, q, amp, eq := Lit("mailto:"), RecipientUnits, ['?' as int], ['&' as int], ['=' as int];
    assert Link(es, eb) == s + r + (q + SubjectKey + eq) + es + (amp + BodyKey + eq) + eb;
  }

  /** The recipient of a mailto URI runs up to the first '?', and the query follows it. */
  lemma ParseRecipient(to: JsString, query: JsString)
    requires '?' as int !in to
    ensures ParseMailto(Lit("mailto:") + (to + (['?' as int] + query))) == Some(MailtoUri(to, ParseQuery(query)))
  {
    var scheme := Lit("mailto:");
    var link := scheme + (to + (['?' as int] + query));
    var rest := link[|scheme|..];
    assert link[..|scheme|] == scheme;
    assert rest == to + (['?' as int] + query);
    IndexOfSeam(to, ['?' as int] + query, '?' as int);
    assert rest[..|to|] == to;
    assert rest[|to| + 1..] == query;
  }

  /**
   * When neither encoded value holds a '&' or a '=', the link reads back as
   * a mailto URI to the recipient with exactly the fields subject and body.
   */
  lemma ParseLink(es: JsString, eb: JsString)
    requires '&' as int !in es && '&' as int !in eb && '=' as int !in es && '=' as int !in eb
    ensures ParseMailto(Link(es, eb)) ==
      Some(MailtoUri(RecipientUnits, [HeaderField(SubjectKey, es), HeaderField(BodyKey, eb)]))
  {
    var sq := SubjectKey + ['=' as int] + es;
    var bq := BodyKey + ['=' as int] + eb;
    LinkPieces(es, eb);
    KeysExclude();
    ParseRecipient(RecipientUnits, sq + (['&' as int] + bq));
    QueryFields(es, eb);
  }

  /** A query of two '&'-free pieces reads as the two fields they spell. */
  lemma QueryOfTwo(a: JsString, b: JsString)
    requires '&' as int !in a && '&' as int !in b
    ensures ParseQuery(a + (['&' as int] + b)) == [ParseField(a), ParseField(b)]
  {
    assert a + (['&' as int] + b) == a + ['&' as int] + b;
    SplitOnce(a, b, '&' as int);
  }

  lemma QueryFields(es: JsString, eb: JsString)
    requires '&' as int !in es && '&' as int !in eb && '=' as int !in es && '=' as int !in eb
    ensures ParseQuery((SubjectKey + ['=' as int] + es) + (['&' as int] + (BodyKey + ['=' as int] + eb)))
      == [HeaderField(SubjectKey, es), HeaderField(BodyKey, eb)]
  {
    KeysExclude();
    var sq := SubjectKey + ['=' as int] + es;
    var bq := BodyKey + ['=' as int] + eb;
    assert '&' as int !in sq && '&' as int !in bq;
    QueryOfTwo(sq, bq);
    FieldOf(SubjectKey, es);
    FieldOf(BodyKey, eb);
  }

  /**
   * The link handleSubmit builds is a mailto URI addressed to the fixed
   * recipient whose query holds exactly two fields, "subject" and "body",
   * and percent-decoding their values gives back the subject and the body.
   */
  lemma MailtoRoundTrip(name: JsString, email: JsString, message: JsString)
    requires MailtoLink(name, email, message).Ok?
    ensures var m := ParseMailto(MailtoLink(name, email, message).value);
      && m.Some?
      && m.value.to == RecipientUnits
      && |m.value.fields| == 2
      && m.value.fields[0].hname == SubjectKey
      && Uri.Decode(m.value.fields[0].hvalue) == Some(Subject(name))
      && m.value.fields[1].hname == BodyKey
      && Uri.Decode(m.value.fields[1].hvalue) == Some(Body(name, email, message))
  {
    var es := Uri.Encode(Subject(name)).value;
    var eb := Uri.Encode(Body(name, email, message)).value;
    Uri.EncodeHasNoDelimiters(Subject(name));
    Uri.EncodeHasNoDelimiters(Body(name, email, message));
    Uri.DecodeEncode(Subject(name));
    Uri.DecodeEncode(Body(name, email, message));
    assert '&' as int !in es && '&' as int !in eb && '=' as int !in es && '=' as int !in eb;
    ParseLink(es, eb);
  }

  /**
   * Building the link throws exactly when the name, the e-mail address or
   * the message holds an unpaired surrogate.
   */
  lemma MailtoFailsIffIllFormed(name: JsString, email: JsString, message: JsString)
    ensures MailtoLink(name, email, message).Err? <==>
      !(IsWellFormed(name) && IsWellFormed(email) && IsWellFormed(message))
  {
    var p1, p2, p3 := Lit("Message from "), Lit("\n\nFrom: "), Lit("\nEmail: ");
    WellFormedNoSurrogates(p1);
    WellFormedNoSurrogates(p2);
    WellFormedNoSurrogates(p3);
    Uri.EncodeFailsIffIllFormed(Subject(name));
    Uri.EncodeFailsIffIllFormed(Body(name, email, message));
    WellFormedConcat(p1, name);
    WellFormedConcat(message, p2);
    WellFormedConcat(message + p2, name);
    WellFormedConcat(message + p2 + name, p3);
    WellFormedConcat(message + p2 + name + p3, email);
  }

  /** The form as the component holds it. */
  class ContactForm {
    var name: JsString
    var email: JsString
    var message: JsString
    var isSubmitting: bool
    var submitStatus: Status

    /** Empty fields, not submitting, status idle. */
    constructor ()
      ensures name == [] && email == [] && message == []
      ensures !isSubmitting && submitStatus == Idle
      ensures !SubmitDisabled()
    {
      name, email, message := [], [], [];
      isSubmitting := false;
      submitStatus := Idle;
    }

    function FieldValue(f: Field): JsString
      reads this
    {
      match f
      case Name => name
      case Email => email
      case Message => message
    }

    /** The submit button is disabled, and reads "Sending...", exactly while a submit is running. */
    function SubmitDisabled(): (disabled: bool)
      reads this
      ensures disabled <==> isSubmitting
    {
      isSubmitting
    }

    /** handleChange: the field the event names takes the new value; nothing else changes. */
    method HandleChange(field: Field, value: JsString)
      modifies this
      ensures FieldValue(field) == value
      ensures forall f :: f != field ==> FieldValue(f) == old(FieldValue(f))
      ensures isSubmitting == old(isSubmitting) && submitStatus == old(submitStatus)
      ensures SubmitDisabled() == old(SubmitDisabled())
    {
      match field
      case Name => name := value;
      case Email => email := value;
      case Message => message := value;
    }

    /**
     * handleSubmit: marks the form as submitting and the status idle, builds
     * the link from the current fields, and then either navigates to it,
     * reports success and clears the fields, or reports an error and keeps
     * them; in both cases the form stops submitting.
     */
    method HandleSubmit() returns (navigation: Option<JsString>)
      modifies this
      ensures !isSubmitting
      ensures !SubmitDisabled()
      ensures MailtoLink(old(name), old(email), old(message)).Ok? ==>
        && navigation == Some(MailtoLink(old(name), old(email), old(message)).value)
        && submitStatus == Success
        && name == [] && email == [] && message == []
      ensures MailtoLink(old(name), old(email), old(message)).Err? ==>
        && navigation == None
        && submitStatus == Error
        && name == old(name) && email == old(email) && message == old(message)
    {
      isSubmitting := true;
      submitStatus := Idle;
      var built := MailtoLink(name, email, message);
      match built {
        case Ok(link) =>
          navigation := Some(link);
          submitStatus := Success;
          name, email, message := [], [], [];
        case Err(_) =>
          navigation := None;
          submitStatus := Error;
      }
      isSubmitting := false;
    }
  }
}
