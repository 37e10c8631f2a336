/**
 * The alert: lines 86-89 of gitlab_status_monitor.py decide whether an email is due, and
 * lines 95-104 compose it. Times are counted in microseconds, the resolution of
 * `datetime.now()`; the time read back from the last-email file has whole seconds only,
 * because it was written with "%Y-%m-%d %H:%M:%S".
 */
module Notifier {
  import opened Wrappers
  import opened Text

  const MicrosPerSecond: int := 1_000_000

  /** `timedelta(hours=1)`, in microseconds. */
  const OneHour: int := 3600 * MicrosPerSecond

  /**
   * Lines 86-89: an email is due when some service failed and either no email time is on
   * record or more than one hour has passed since the recorded one. `last` is in whole
   * seconds, `now` in microseconds.
   */
  predicate EmailDue(failed: seq<string>, last: Option<int>, now: int)
    ensures EmailDue(failed, last, now) ==> failed != []
    ensures last.Some? && now <= last.value * MicrosPerSecond + OneHour ==> !EmailDue(failed, last, now)
  {
    failed != [] && (last.None? || now - last.value * MicrosPerSecond > OneHour)
  }

  /** No failure, no email, whatever the record says. */
  lemma NoFailureNoEmail(last: Option<int>, now: int)
    ensures !EmailDue([], last, now)
  {
  }

  /** With failures and no recorded email, an email is always due. */
  lemma FirstFailureEmails(failed: seq<string>, now: int)
    requires failed != []
    ensures EmailDue(failed, None, now)
  {
  }

  /** With failures and a record, an email is due exactly when strictly more than an hour has passed. */
  lemma ThrottleWindow(failed: seq<string>, last: int, now: int)
    requires failed != []
    ensures EmailDue(failed, Some(last), now) <==> now > last * MicrosPerSecond + OneHour
  {
  }

  /** Exactly one hour after the recorded second no email is sent; one microsecond later one is. */
  lemma ThrottleBoundary(failed: seq<string>, last: int)
    requires failed != []
    ensures !EmailDue(failed, Some(last), last * MicrosPerSecond + OneHour)
    ensures EmailDue(failed, Some(last), last * MicrosPerSecond + OneHour + 1)
  {
  }

  /** Once due, an email stays due as time goes on. */
  lemma DueStaysDue(failed: seq<string>, last: Option<int>, now: int, later: int)
    requires now <= later && EmailDue(failed, last, now)
    ensures EmailDue(failed, last, later)
  {
  }

  /**
   * The record keeps the second of the email, truncated: a run less than one hour minus
   * one second after an email at `sent` (microseconds) sends nothing, while a run a
   * little under an hour after it may send again.
   */
  lemma ThrottleFromTruncatedSecond(failed: seq<string>, sent: int, now: int)
    requires failed != [] && now - sent <= OneHour - MicrosPerSecond
    ensures !EmailDue(failed, Some(sent / MicrosPerSecond), now)
  {
    assert sent / MicrosPerSecond * MicrosPerSecond > sent - MicrosPerSecond;
  }

  /** An email sent 0.9 s into a second is throttled for less than an hour. */
  lemma TruncationShortensWindow()
    ensures EmailDue(["sidekiq"], Some(900_000 / MicrosPerSecond), 900_000 + OneHour - 1)
  {
  }

  /** The first line of the body. */
  function Header(stamp: string): string
  {
    "The following GitLab services are DOWN as of " + stamp + ":"
  }

  /** The last line of the body. */
  const Footer: string := "Please check the GitLab server."

  /** One `- name` line per failed service, in order. */
  function Bullets(failed: seq<string>): (bs: seq<string>)
    ensures |bs| == |failed|
    ensures forall i :: 0 <= i < |failed| ==> bs[i] == "- " + failed[i]
  {
    seq(|failed|, i requires 0 <= i < |failed| => "- " + failed[i])
  }

  /** Lines 96-98: the body of the alert. */
  function Body(stamp: string, failed: seq<string>): (body: string)
    ensures Header(stamp) <= body
    ensures |Footer| <= |body| && body[|body| - |Footer|..] == Footer
  {
    var h := Header(stamp);
    var rest := "\n\n" + Join("\n", Bullets(failed)) + "\n\n";
    assert h + rest + Footer == h + (rest + Footer);
    assert (h + rest + Footer)[|h + rest|..] == Footer;
    h + rest + Footer
  }

  /**
   * The body's lines are the header, a blank line, one bullet per failed service in
   * order, a blank line and the footer, when neither the time stamp nor a name holds a
   * newline.
   */
  lemma BodyLines(stamp: string, failed: seq<string>)
    requires failed != []
    requires '\n' !in stamp
    requires forall i :: 0 <= i < |failed| ==> '\n' !in failed[i]
    ensures Split(Body(stamp, failed), '\n') == [Header(stamp), ""] + Bullets(failed) + ["", Footer]
  {
    var bs := Bullets(failed);
    var all := [Header(stamp), ""] + bs + ["", Footer];
    calc {
      Join("\n", all);
      { JoinAppend("\n", [Header(stamp), ""] + bs, ["", Footer]); }
      Join("\n", [Header(stamp), ""] + bs) + "\n" + Join("\n", ["", Footer]);
      { JoinAppend("\n", [Header(stamp), ""], bs); }
      Join("\n", [Header(stamp), ""]) + "\n" + Join("\n", bs) + "\n" + Join("\n", ["", Footer]);
      { assert Join("\n", [Header(stamp), ""]) == Header(stamp) + "\n";
        assert Join("\n", ["", Footer]) == "\n" + Footer; }
      (Header(stamp) + "\n") + "\n" + Join("\n", bs) + "\n" + ("\n" + Footer);
      { Regroup(Header(stamp), Join("\n", bs), Footer); }
      Body(stamp, failed);
    }
    FixedTextOneLine();
    assert '\n' !in Header(stamp);
    forall k | 0 <= k < |all| ensures '\n' !in all[k] {
      if k == 0 {
        assert all[k] == Header(stamp);
      } else if 2 <= k < 2 + |bs| {
        assert all[k] == "- " + failed[k - 2];
      } else if k == |all| - 1 {
        assert all[k] == Footer;
      }
    }
    SplitJoin('\n', all);
  }

  /** The fixed text of the body holds no newline. */
  lemma FixedTextOneLine()
    ensures '\n' !in "The following GitLab services are DOWN as of " && '\n' !in ":"
    ensures '\n' !in "- " && '\n' !in Footer
  {
    var a, b := "The following GitLab ", "services are DOWN as of ";
    forall i | 0 <= i < |a| ensures a[i] != '\n' {
    }
    forall i | 0 <= i < |b| ensures b[i] != '\n' {
    }
    assert a + b == "The following GitLab services are DOWN as of ";
    forall i | 0 <= i < |Footer| ensures Footer[i] != '\n' {
    }
  }

  lemma Regroup(h: string, j: string, f: string)
    ensures (h + "\n") + "\n" + j + "\n" + ("\n" + f) == h + "\n\n" + j + "\n\n" + f
  {
  }

  /** What lines 100-110 hand to the mail server. */
  datatype Email = Email(sender: string, to: seq<string>, cc: seq<string>, subject: string, body: string)
  {
    /** The envelope recipients, `EMAIL_TO + EMAIL_CC`. */
    function Recipients(): seq<string>
    {
      to + cc
    }
  }

  /** Lines 95-110: the email for the failed services at the given time stamp. */
  function Compose(sender: string, to: seq<string>, cc: seq<string>, subject: string, stamp: string, failed: seq<string>): (e: Email)
    ensures e.sender == sender && e.subject == subject && e.to == to && e.cc == cc
    ensures e.Recipients() == to + cc
    ensures e.body == Body(stamp, failed)
    ensures Header(stamp) <= e.body
    ensures failed != [] && '\n' !in stamp && (forall i :: 0 <= i < |failed| ==> '\n' !in failed[i]) ==>
      Split(e.body, '\n') == [Header(stamp), ""] + Bullets(failed) + ["", Footer]
  {
    var body := Body(stamp, failed);
    assert failed != [] && '\n' !in stamp && (forall i :: 0 <= i < |failed| ==> '\n' !in failed[i]) ==>
      Split(body, '\n') == [Header(stamp), ""] + Bullets(failed) + ["", Footer] by {
      if failed != [] && '\n' !in stamp && (forall i :: 0 <= i < |failed| ==> '\n' !in failed[i]) {
        BodyLines(stamp, failed);
      }
    }
    Email(sender, to, cc, subject, body)
  }
}
