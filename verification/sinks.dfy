/**
 The two destinations a relayed message is handed to (`put_message` in each script).

 - The EWS sink keeps one Exchange account for the whole process: it is built, and the
   extended property `tag_message_flags` registered, on the first call only, while the
   global `account_ews` is still None; if building it raises, `account_ews` stays None.
   Each call then saves one item into the inbox whose MIME content is the fetched RFC 822
   bytes, unchanged, with the property set to 1.
 - The SMTP sink opens a fresh connection for every message, rewrites the Subject line and
   sends the result from the login user to the forwarding address.

 The network is abstracted to one outcome per call, an `Attempt`: the destination accepted
 the message, refused it, or could not be reached at all.
 */
module Sinks {
  import opened Types
  import SubjectRewrite

  /** Where and as whom the EWS sink logs in. */
  datatype EwsConfig = EwsConfig(server: string, username: string, password: string, primarySmtpAddress: string)

  /** The Exchange account built from the configuration (delegate access, no autodiscover). */
  datatype Session = Session(server: string, username: string, password: string, primarySmtpAddress: string)

  /** An item saved into the destination inbox. */
  datatype SavedItem = SavedItem(mimeContent: Bytes, tagMessageFlags: int)

  /** The value the marker property is set to on every transferred item. */
  const TransferMarker: int := 1

  /** Relay host and addresses of the SMTP sink. */
  datatype SmtpConfig = SmtpConfig(server: string, port: nat, username: string, password: string, forwardTo: string)

  /** A message handed to the relay by `sendmail(from, to, data)`. */
  datatype Mail = Mail(sender: string, recipient: string, data: Bytes)

  /** The destination and everything it has accepted so far. */
  datatype Sink =
    | Ews(ews: EwsConfig, session: Option<Session>, sessionsCreated: nat, saved: seq<SavedItem>)
    | Smtp(smtp: SmtpConfig, sent: seq<Mail>)

  /**
   How one call of `put_message` went.
   - `Accepted`: `message.save()` (EWS) or `sendmail` (SMTP) returned.
   - `Refused`: the destination was reached but the save or the send raised.
   - `Unreachable`: the first step raised. For EWS that is building the account
     (`exchangelib.Account(...)`), which is only attempted while there is none; for SMTP it is
     the connection, greeting, STARTTLS or login.
   */
  datatype Attempt = Accepted | Refused | Unreachable

  /** An EWS sink at process start: no account yet, nothing saved. */
  function FreshEws(c: EwsConfig): Sink {
    Ews(c, None, 0, [])
  }

  /** An SMTP sink before the first message. */
  function FreshSmtp(c: SmtpConfig): Sink {
    Smtp(c, [])
  }

  function Login(c: EwsConfig): Session {
    Session(c.server, c.username, c.password, c.primarySmtpAddress)
  }

  /** The item `put_message` builds from the fetched bytes. */
  function ItemFor(data: Bytes): SavedItem {
    SavedItem(data, TransferMarker)
  }

  /** The mail the SMTP `put_message` sends for the fetched bytes. */
  function MailFor(c: SmtpConfig, data: Bytes): Mail {
    Mail(c.username, c.forwardTo, SubjectRewrite.Rewrite(data))
  }

  /**
   The EWS `put_message`: builds the account if there is none yet, then saves the item.
   When building the account raises, `account_ews` stays None and nothing is saved; a failed
   save leaves the account in place and saves nothing.
   */
  function PutEws(s: Sink, data: Bytes, a: Attempt): (s': Sink)
    requires s.Ews?
    ensures s'.Ews? && s'.ews == s.ews
    ensures s.session.Some? ==> s'.session == s.session && s'.sessionsCreated == s.sessionsCreated
    ensures s.session.None? && a != Unreachable ==> s'.session == Some(Login(s.ews)) && s'.sessionsCreated == s.sessionsCreated + 1
    ensures s.session.None? && a == Unreachable ==> s'.session.None? && s'.sessionsCreated == s.sessionsCreated
    ensures a == Accepted ==> s'.saved == s.saved + [SavedItem(data, 1)]
    ensures a != Accepted ==> s'.saved == s.saved
  {
    if s.session.None? && a == Unreachable then s
    else
      var s1 := if s.session.None? then s.(session := Some(Login(s.ews)), sessionsCreated := s.sessionsCreated + 1) else s;
      if a == Accepted then s1.(saved := s1.saved + [ItemFor(data)]) else s1
  }

  /** The SMTP `put_message`: an accepted call sends one rewritten mail; any other sends none. */
  function PutSmtp(s: Sink, data: Bytes, a: Attempt): (s': Sink)
    requires s.Smtp?
    ensures s'.Smtp? && s'.smtp == s.smtp
    ensures a == Accepted ==> s'.sent == s.sent + [Mail(s.smtp.username, s.smtp.forwardTo, SubjectRewrite.Rewrite(data))]
    ensures a != Accepted ==> s'.sent == s.sent
  {
    if a == Accepted then s.(sent := s.sent + [MailFor(s.smtp, data)]) else s
  }

  /**
   Hands one fetched message to whichever destination this is: the destination keeps its
   kind and configuration, and gains exactly one item or mail when the call is accepted.
   */
  function Deliver(s: Sink, data: Bytes, a: Attempt): (s': Sink)
    ensures s'.Ews? == s.Ews?
    ensures s.Ews? ==> s'.ews == s.ews && |s'.saved| == |s.saved| + (if a == Accepted then 1 else 0)
    ensures s.Smtp? ==> s'.smtp == s.smtp && |s'.sent| == |s.sent| + (if a == Accepted then 1 else 0)
  {
    match s
    case Ews(_, _, _, _) => PutEws(s, data, a)
    case Smtp(_, _) => PutSmtp(s, data, a)
  }

  /** The destination after a run of successful deliveries, in order. */
  function DeliverEach(s: Sink, ds: seq<Bytes>): (s': Sink)
    ensures s'.Ews? == s.Ews?
    decreases |ds|
  {
    if ds == [] then s else DeliverEach(Deliver(s, ds[0], Accepted), ds[1..])
  }

  /* ---------------- EWS: one account per run ---------------- */

  /** The account exists exactly when it has been built once, and it is the configured one. */
  predicate OneSession(s: Sink) {
    s.Ews? &&
    s.sessionsCreated == (if s.session.Some? then 1 else 0) &&
    (s.session.Some? ==> s.session.value == Login(s.ews))
  }

  /**
   Every call of the EWS `put_message`, successful or not, keeps at most one account in
   existence; afterwards there is one unless there was none and it could not be built.
   */
  lemma PutEwsKeepsOneSession(s: Sink, data: Bytes, a: Attempt)
    requires OneSession(s)
    ensures OneSession(Deliver(s, data, a))
    ensures Deliver(s, data, a).session.Some? <==> s.session.Some? || a != Unreachable
  {
  }

  /** Successive saves reuse the account: the items are the payloads in order, each marked 1. */
  lemma {:induction false} DeliverEachEws(s: Sink, ds: seq<Bytes>)
    requires OneSession(s)
    ensures var s' := DeliverEach(s, ds);
      && OneSession(s')
      && s'.ews == s.ews
      && (s.session.Some? || ds != [] <==> s'.session.Some?)
      && |s'.saved| == |s.saved| + |ds|
      && s'.saved[..|s.saved|] == s.saved
      && forall j :: 0 <= j < |ds| ==> s'.saved[|s.saved| + j] == SavedItem(ds[j], TransferMarker)
    decreases |ds|
  {
    if ds != [] {
      var s1 := Deliver(s, ds[0], Accepted);
      PutEwsKeepsOneSession(s, ds[0], Accepted);
      DeliverEachEws(s1, ds[1..]);
      var s' := DeliverEach(s1, ds[1..]);
      assert s'.saved[..|s1.saved|] == s1.saved;
      assert s'.saved[..|s.saved|] == s1.saved[..|s.saved|];
      forall j | 0 <= j < |ds|
        ensures s'.saved[|s.saved| + j] == SavedItem(ds[j], TransferMarker)
      {
        if j == 0 {
          assert s'.saved[|s.saved|] == s1.saved[|s.saved|];
        } else {
          assert ds[1..][j - 1] == ds[j];
        }
      }
    }
  }

  /* ---------------- SMTP: one rewritten mail per delivery ---------------- */

  /** Successive sends go out in order, each rewritten, from the login user to the forwarding address. */
  lemma {:induction false} DeliverEachSmtp(s: Sink, ds: seq<Bytes>)
    requires s.Smtp?
    ensures var s' := DeliverEach(s, ds);
      && s'.Smtp? && s'.smtp == s.smtp
      && |s'.sent| == |s.sent| + |ds|
      && s'.sent[..|s.sent|] == s.sent
      && forall j :: 0 <= j < |ds| ==>
           s'.sent[|s.sent| + j] == Mail(s.smtp.username, s.smtp.forwardTo, SubjectRewrite.Rewrite(ds[j]))
    decreases |ds|
  {
    if ds != [] {
      var s1 := Deliver(s, ds[0], Accepted);
      DeliverEachSmtp(s1, ds[1..]);
      var s' := DeliverEach(s1, ds[1..]);
      assert s'.sent[..|s1.sent|] == s1.sent;
      assert s'.sent[..|s.sent|] == s1.sent[..|s.sent|];
      forall j | 0 <= j < |ds|
        ensures s'.sent[|s.sent| + j] == Mail(s.smtp.username, s.smtp.forwardTo, SubjectRewrite.Rewrite(ds[j]))
      {
        if j == 0 {
          assert s'.sent[|s.sent|] == s1.sent[|s.sent|];
        } else {
          assert ds[1..][j - 1] == ds[j];
        }
      }
    }
  }
}
