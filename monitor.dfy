/**
 * One run of gitlab_status_monitor.py (lines 39-126) over the two cache files it keeps
 * between runs: the status file, rewritten on every completed run, and the last-email
 * file, rewritten only after an email went out.
 */
module StatusMonitor {
  import opened Wrappers
  import opened Text
  import opened Dicts
  import opened StatusParser
  import opened Snapshot
  import opened Notifier
  import opened Config

  /** What a run did. */
  datatype RunReport =
    | Crashed(line: string)       // a non-blank status line without ':' raised IndexError
    | Completed(previous: Dict<string>, current: Dict<string>, failed: seq<string>, email: Option<Email>, delivered: bool)

  /**
   * Lines 50-57: the time on record, in whole seconds; None when the last-email file is
   * absent or its stripped text does not parse. `strptime` stands for
   * `datetime.strptime(_, "%Y-%m-%d %H:%M:%S")`, with None for a ValueError.
   */
  function LastSent(file: Option<string>, strptime: string -> Option<int>): (t: Option<int>)
    ensures file.None? ==> t.None?
    ensures file.Some? ==> t == strptime(Strip(file.value))
    ensures file.Some? && Trimmed(file.value, Whitespace) ==> t == strptime(file.value)
  {
    match file
    case None => None
    case Some(text) => strptime(Strip(text))
  }

  /** Whitespace around a recorded stamp does not change the time read back. */
  lemma LastSentOfStamp(pre: string, stamp: string, post: string, strptime: string -> Option<int>)
    requires stamp != [] && Trimmed(stamp, Whitespace)
    requires forall i :: 0 <= i < |pre| ==> pre[i] in Whitespace
    requires forall i :: 0 <= i < |post| ==> post[i] in Whitespace
    ensures LastSent(Some(pre + stamp + post), strptime) == strptime(stamp)
  {
    StripPadded(pre, stamp, post, Whitespace);
  }

  /** A parsed service name can be written to the status file. */
  lemma ServiceNameStorable(n: string)
    requires ServiceName(n)
    ensures StorableName(n)
  {
    forall i | 0 <= i < |n| ensures n[i] !in FileNewlines {
      assert n[i] !in LineBoundaries;
    }
  }

  /** Both statuses can be written to the status file. */
  lemma StatusesStorable()
    ensures StorableStatus(Running) && StorableStatus(Failed)
  {
    assert Running[|Running| - 1] == 'g' && Failed[|Failed| - 1] == 'd';
  }

  /** The status saved at the end of a completed run reads back, at the next run, as the same dict. */
  lemma SavedStatusReloads(output: string)
    requires Parse(output).Ok?
    ensures Storable(Parse(output).value.status)
    ensures Load(Serialize(Parse(output).value.status)) == Parse(output).value.status
  {
    var p := Parse(output).value;
    OutputKinds(output);
    ParsedShape(Kinds(Lines(output, LineBoundaries)), p);
    StatusesStorable();
    forall k | k in p.status.entries ensures StorableName(k) && StorableStatus(p.status.entries[k]) {
      ServiceNameStorable(k);
    }
    RoundTrip(p.status);
  }

  /** When a parse succeeds, the resulting dict is valid. */
  lemma ParsedValid(output: string)
    requires Parse(output).Ok?
    ensures Parse(output).value.status.Valid()
  {
    OutputKinds(output);
    ParsedShape(Kinds(Lines(output, LineBoundaries)), Parse(output).value);
  }

  /** The files the monitor keeps between runs. */
  class Monitor {
    /** The text of /tmp/gitlab_service_status.cache; lines 40-41 create it empty when absent. */
    var statusFile: string
    /** The text of /tmp/gitlab_last_email_sent.cache, None while it does not exist. */
    var lastEmailFile: Option<string>

    constructor (statusFile: string, lastEmailFile: Option<string>)
      ensures this.statusFile == statusFile && this.lastEmailFile == lastEmailFile
    {
      this.statusFile := statusFile;
      this.lastEmailFile := lastEmailFile;
    }

    /**
     * One run on the status command's `output`. `now` is the clock of line 88 in
     * microseconds, `stamp` the text line 95 formats from the clock, and `delivered`
     * whether the SMTP exchange of lines 107-110 completed without raising.
     * A crash leaves both files as they were; otherwise the status file holds exactly the
     * new status, an email is composed exactly when one is due, and the last-email file
     * changes only when that email was delivered, to the stamp its body mentions.
     */
    method Run(settings: Settings, output: string, now: int, stamp: string, strptime: string -> Option<int>, delivered: bool)
      returns (r: RunReport)
      modifies this
      ensures Parse(output).Err? ==>
        && r == Crashed(Parse(output).error)
        && statusFile == old(statusFile) && lastEmailFile == old(lastEmailFile)
      ensures Parse(output).Ok? ==>
        && r.Completed?
        && r.previous == Load(old(statusFile))
        && r.current == Parse(output).value.status && r.failed == Parse(output).value.failed
        && r.current.Valid()
        && statusFile == Serialize(r.current)
        && Load(statusFile) == r.current
        && (r.email.Some? <==> EmailDue(r.failed, LastSent(old(lastEmailFile), strptime), now))
        && (r.email.Some? ==> r.email.value == Compose(settings.sender, settings.to, settings.cc, settings.subject, stamp, r.failed))
        && r.delivered == (r.email.Some? && delivered)
        && lastEmailFile == (if r.delivered then Some(stamp) else old(lastEmailFile))
        && LastSent(lastEmailFile, strptime) == (if r.delivered then strptime(Strip(stamp)) else LastSent(old(lastEmailFile), strptime))
    {
      var previous := LoadStatus(statusFile);
      var last := LastSent(lastEmailFile, strptime);
      var parsed := ParseStatus(output);
      if parsed.Err? {
        return Crashed(parsed.error);
      }
      var newStatus := parsed.value.status;
      var failedServices := parsed.value.failed;
      ParsedValid(output);
      SavedStatusReloads(output);

      var sendEmail := false;
      if failedServices != [] {
        if last.None? || now - last.value * MicrosPerSecond > OneHour {
          sendEmail := true;
        }
      }

      var email: Option<Email> := None;
      var sent := false;
      if sendEmail {
        email := Some(Compose(settings.sender, settings.to, settings.cc, settings.subject, stamp, failedServices));
        if delivered {
          lastEmailFile := Some(stamp);
          sent := true;
        }
      }

      statusFile := WriteStatus(newStatus);
      r := Completed(previous, newStatus, failedServices, email, sent);
    }
  }

  /**
   * Two runs an hour apart at most, on an output with a failed service, starting with no
   * cache files: the first run emails and records its stamp, the second is throttled and
   * finds the first run's status as its previous status.
   */
  method ThrottledRerun(settings: Settings, output: string, now1: int, now2: int, stamp: string, strptime: string -> Option<int>, t: int)
    returns (r1: RunReport, r2: RunReport)
    requires Parse(output).Ok? && Parse(output).value.failed != []
    requires strptime(Strip(stamp)) == Some(t) && now2 <= t * MicrosPerSecond + OneHour
    ensures r1.Completed? && r1.email.Some? && r1.delivered
    ensures r2.Completed? && r2.email.None? && !r2.delivered
    ensures r2.previous == r1.current
  {
    var m := new Monitor("", None);
    r1 := m.Run(settings, output, now1, stamp, strptime, true);
    r2 := m.Run(settings, output, now2, stamp, strptime, true);
  }

  /** A delivery that raised records nothing, so the next run emails again. */
  method RetryAfterFailedDelivery(settings: Settings, output: string, now1: int, now2: int, stamp: string, strptime: string -> Option<int>)
    returns (r1: RunReport, r2: RunReport)
    requires Parse(output).Ok? && Parse(output).value.failed != []
    ensures r1.Completed? && r1.email.Some? && !r1.delivered
    ensures r2.Completed? && r2.email.Some? && r2.delivered
  {
    var m := new Monitor("", None);
    r1 := m.Run(settings, output, now1, stamp, strptime, false);
    r2 := m.Run(settings, output, now2, stamp, strptime, true);
  }

  /** An output without failed services never emails, whatever the record says. */
  method AllRunningNoEmail(settings: Settings, output: string, statusFile: string, lastEmailFile: Option<string>, now: int, stamp: string, strptime: string -> Option<int>, delivered: bool)
    returns (r: RunReport)
    requires Parse(output).Ok? && Parse(output).value.failed == []
    ensures r.Completed? && r.email.None? && !r.delivered
  {
    var m := new Monitor(statusFile, lastEmailFile);
    r := m.Run(settings, output, now, stamp, strptime, delivered);
  }
}
