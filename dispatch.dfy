/**
 * Mail dispatch in main.py: the recipient list read from a comma-separated
 * setting, and the check `send_email` makes before it builds or sends
 * anything. Building the MIME message, reading attachments and talking to the
 * SMTP server are not part of this model.
 */
module Dispatch {
  import opened Wrappers
  import opened Text

  /** Each piece with white space stripped from both ends. */
  function Stripped(parts: seq<string>): seq<string> {
    seq(|parts|, i requires 0 <= i < |parts| => Strip(parts[i]))
  }

  /** The non-empty strings of a list, in order. */
  function NonEmpty(xs: seq<string>): seq<string> {
    if xs == [] then []
    else (if xs[0] != "" then [xs[0]] else []) + NonEmpty(xs[1..])
  }

  /** `[e.strip() for e in raw.split(",") if e.strip()]` */
  function ParseRecipients(raw: string): (r: seq<string>)
    ensures forall e :: e in r <==> e in Stripped(Split(raw, ",")) && e != ""
  {
    NonEmptyMembers(Stripped(Split(raw, ",")));
    NonEmpty(Stripped(Split(raw, ",")))
  }

  lemma {:induction false} NonEmptyConcat(xs: seq<string>, ys: seq<string>)
    ensures NonEmpty(xs + ys) == NonEmpty(xs) + NonEmpty(ys)
  {
    if xs == [] {
      assert xs + ys == ys;
    } else {
      NonEmptyConcat(xs[1..], ys);
      HeadTail(xs, ys);
      var head := if xs[0] != "" then [xs[0]] else [];
      Regroup(head, NonEmpty(xs[1..]), NonEmpty(ys));
    }
  }

  /** Helper facts about a non-empty list followed by another. */
  lemma HeadTail(xs: seq<string>, ys: seq<string>)
    requires xs != []
    ensures (xs + ys)[0] == xs[0] && (xs + ys)[1..] == xs[1..] + ys
  {
  }

  /** A string is kept exactly when it is in the list and not empty. */
  lemma {:induction false} NonEmptyMembers(xs: seq<string>)
    ensures forall e :: e in NonEmpty(xs) <==> e in xs && e != ""
  {
    if xs != [] {
      NonEmptyMembers(xs[1..]);
      assert xs == [xs[0]] + xs[1..];
    }
  }

  /** The recipients of `a,b` are those of `a` followed by those of `b`. */
  lemma ParseRecipientsConcat(a: string, b: string)
    ensures ParseRecipients(a + "," + b) == ParseRecipients(a) + ParseRecipients(b)
  {
    assert "," == [','];
    SplitCharConcat(a, ',', b);
    var pa, pb := Split(a, ","), Split(b, ",");
    assert Split(a + "," + b, ",") == pa + pb;
    assert Stripped(pa + pb) == Stripped(pa) + Stripped(pb);
    NonEmptyConcat(Stripped(pa), Stripped(pb));
  }

  /** A setting without a comma names one recipient, its stripped text, unless that is empty. */
  lemma ParseRecipientsSingle(w: string)
    requires ',' !in w
    ensures ParseRecipients(w) == if Strip(w) == "" then [] else [Strip(w)]
  {
    SplitCharNone(w, ',');
    assert "," == [','];
    var e := Strip(w);
    assert Stripped([w]) == [e];
    assert [e][1..] == [];
    assert NonEmpty([e]) == (if e != "" then [e] else []) + NonEmpty([]);
  }

  /** An unset setting (read as "") names nobody. */
  lemma ParseRecipientsUnset()
    ensures ParseRecipients("") == []
  {
    ParseRecipientsSingle("");
  }

  /** A recipient that `strip()` leaves alone and that holds no comma. */
  predicate CleanAddress(e: string) {
    e != [] && ',' !in e && !IsSpace(e[0]) && !IsSpace(e[|e| - 1])
  }

  /** A stripped piece without commas is clean unless it is empty. */
  lemma StrippedClean(p: string)
    requires ',' !in p && Strip(p) != ""
    ensures CleanAddress(Strip(p))
  {
    var e := Strip(p);
    var i :| TrimmedAt(p, IsSpace, e, i);
    forall k | 0 <= k < |e| ensures e[k] != ',' {
      assert e[k] == p[i + k];
    }
  }

  /** No piece of a split on commas holds a comma. */
  lemma CommaFreeParts(raw: string)
    ensures forall p :: p in Split(raw, ",") ==> ',' !in p
  {
    SplitPartsAvoidSep(raw, ",");
    forall p | p in Split(raw, ",") ensures ',' !in p {
      if ',' in p {
        var j :| 0 <= j < |p| && p[j] == ',';
        AtChar(p, ',', j);
        assert false;
      }
    }
  }

  /** Every parsed recipient is non-empty, free of commas and of surrounding white space. */
  lemma ParseRecipientsClean(raw: string)
    ensures forall e :: e in ParseRecipients(raw) ==> CleanAddress(e)
  {
    var parts := Split(raw, ",");
    CommaFreeParts(raw);
    NonEmptyMembers(Stripped(parts));
    forall e | e in ParseRecipients(raw) ensures CleanAddress(e) {
      var i :| 0 <= i < |parts| && Stripped(parts)[i] == e;
      assert parts[i] in parts;
      StrippedClean(parts[i]);
    }
  }

  /** What `server.sendmail` is given: sender, recipients and the message parts. */
  datatype Envelope = Envelope(
    sender: string, recipients: seq<string>, subject: string, body: string, attachments: seq<string>)

  datatype Outcome = Sent(envelope: Envelope) | Rejected(reason: string)

  const MissingSettings := "Missing EMAIL_USERNAME / EMAIL_PASSWORD / EMAIL_RECIPIENTS env vars."

  /** Python truthiness of an optional string: set and not empty. */
  predicate Given(v: Option<string>) {
    v.Some? && v.value != ""
  }

  /**
   * `send_email`: the `ValueError` is raised, before anything is sent, exactly
   * when the sender, the password or the recipient list is missing or empty;
   * otherwise the mail goes from the sender to exactly the given recipients.
   */
  function SendEmail(subject: string, htmlBody: string, sender: Option<string>, password: Option<string>,
                     recipients: seq<string>, attachments: Option<seq<string>>): (r: Outcome)
    ensures r.Rejected? <==> !Given(sender) || !Given(password) || recipients == []
    ensures r.Rejected? ==> r.reason == MissingSettings
    ensures r.Sent? ==> Some(r.envelope.sender) == sender && r.envelope.recipients == recipients
    ensures r.Sent? ==> r.envelope.attachments == attachments.GetOr([])
  {
    if !Given(sender) || !Given(password) || recipients == [] then Rejected(MissingSettings)
    else Sent(Envelope(sender.value, recipients, subject, htmlBody, attachments.GetOr([])))
  }

  /** The run of main.py: with the recipient setting unset, or only commas and blanks, nothing is sent. */
  lemma NoRecipientsNoMail(subject: string, htmlBody: string, sender: Option<string>, password: Option<string>,
                           raw: string, attachments: Option<seq<string>>)
    requires ParseRecipients(raw) == []
    ensures SendEmail(subject, htmlBody, sender, password, ParseRecipients(raw), attachments).Rejected?
  {
  }

  /** Whatever is sent goes only to clean addresses taken from the setting. */
  lemma SentToCleanAddresses(subject: string, htmlBody: string, sender: Option<string>, password: Option<string>,
                             raw: string, attachments: Option<seq<string>>)
    requires SendEmail(subject, htmlBody, sender, password, ParseRecipients(raw), attachments).Sent?
    ensures var r := SendEmail(subject, htmlBody, sender, password, ParseRecipients(raw), attachments);
      forall e :: e in r.envelope.recipients ==> CleanAddress(e)
  {
    ParseRecipientsClean(raw);
  }
}
