/**
 * The sample output built into gitlab_status_monitor.py (lines 31-37), which the monitor
 * parses while `USE_SAMPLE_OUTPUT` is set: five services, of which only sidekiq failed.
 */
module Sample {
  import opened Wrappers
  import opened Text
  import opened Dicts
  import opened StatusParser

  /** What follows the service name on a line of the sample: both process ids and the 7 s uptime. */
  function Tail(pid: string, logPid: string): string
  {
    "(pid " + pid + ") 7s; run: log: (pid " + logPid + ") 7s"
  }

  /** A line of `gitlab-ctl status`: the state tag, the service and what follows. */
  function StatusLineText(tag: string, name: string, tail: string): string
  {
    tag + ": " + name + ": " + tail
  }

  /** The lines of the sample, in order. */
  const NginxLine: string := StatusLineText("run", "nginx", Tail("972", "971"))
  const PostgresqlLine: string := StatusLineText("run", "postgresql", Tail("962", "959"))
  const RedisLine: string := StatusLineText("run", "redis", Tail("964", "963"))
  const SidekiqLine: string := StatusLineText("failed", "sidekiq", Tail("967", "966"))
  const PumaLine: string := StatusLineText("run", "puma", Tail("961", "960"))
  const SampleLines: seq<string> := [NginxLine, PostgresqlLine, RedisLine, SidekiqLine, PumaLine]

  /** `SAMPLE_OUTPUT`: the lines, each on its own line, between a leading and a trailing newline. */
  const SampleOutput: string :=
    "\n" + NginxLine + "\n" + PostgresqlLine + "\n" + RedisLine + "\n" + SidekiqLine + "\n" + PumaLine + "\n"

  /** The tags and the first letters of the sample's names and tails are not whitespace. */
  lemma LettersNotSpace()
    ensures 'r' !in Whitespace && 'f' !in Whitespace && 's' !in Whitespace
  {
  }

  lemma Regroup(tag: string, name: string, tail: string)
    ensures tag + ": " + name + ": " + tail == (tag + ": " + name + ":") + (" " + tail)
  {
  }

  lemma RegroupFields(tag: string, name: string, more: string)
    ensures (tag + ": " + name + ":") + more == tag + [':'] + ((" " + name) + ([':'] + more))
    ensures (tag + ": " + name + ":") + more == tag + ": " + (name + ":" + more)
  {
    assert ": " == [':'] + " ";
    assert ":" + more == [':'] + more;
  }

  /** A space before a text does not change the text stripped. */
  lemma StripLeadingSpace(name: string)
    ensures Strip(" " + name) == Strip(name)
  {
    var field := " " + name;
    assert ' ' in Whitespace;
    assert field[1..] == name;
    assert TrimStart(field, Whitespace) == TrimStart(name, Whitespace);
  }

  /** Neither tag holds ':' or starts with whitespace, and a name without ':' keeps none after a leading space. */
  lemma TagFacts(tag: string, name: string, rest: string)
    requires tag == "run" || tag == "failed"
    requires ':' !in name
    ensures tag != [] && tag[0] !in Whitespace
    ensures ':' !in tag && ':' !in " " + name
    ensures ("run:" <= tag + ": " + rest) <==> tag == "run"
  {
    LettersNotSpace();
    if tag == "run" {
      assert (tag + ": " + rest)[..4] == "run:";
    } else {
      assert (tag + ": " + rest)[0] == 'f';
    }
  }

  /**
   * A line `<tag>: <name>: <tail>` of `gitlab-ctl status` records the stripped name with the
   * tag's status, whatever the tail.
   */
  lemma StatusLine(tag: string, name: string, tail: string)
    requires tag == "run" || tag == "failed"
    requires ':' !in name
    ensures Classify(StatusLineText(tag, name, tail)) == Service(Strip(name), if tag == "run" then Running else Failed)
  {
    var raw := tag + ": " + name + ": " + tail;
    var more := StrippedStatusLine(tag, name, tail);
    var line := Strip(raw);
    RegroupFields(tag, name, more);
    var k := Classify(raw);
    assert k.Service? && k.name == Strip(name) by {
      TagFacts(tag, name, name + ": " + tail);
      NameIsSecondField(raw, tag, " " + name, [':'] + more);
      StripLeadingSpace(name);
    }
    assert k.status == if tag == "run" then Running else Failed by {
      TagFacts(tag, name, name + ":" + more);
      ClassifyFacts(raw);
    }
  }

  /** Stripping a status line keeps everything up to the ':' after the name. */
  lemma StrippedStatusLine(tag: string, name: string, tail: string) returns (more: string)
    requires tag == "run" || tag == "failed"
    requires ':' !in name
    ensures Strip(StatusLineText(tag, name, tail)) == (tag + ": " + name + ":") + more
  {
    var head := tag + ": " + name + ":";
    var q := " " + tail;
    var raw := StatusLineText(tag, name, tail);
    assert raw == head + q by {
      Regroup(tag, name, tail);
    }
    assert head != [] && head[0] !in Whitespace && head[|head| - 1] !in Whitespace by {
      TagFacts(tag, name, name + ": " + tail);
      assert head[0] == tag[0];
      SeparatorsNotSpace();
    }
    StripKeepsHead(head, q, Whitespace);
    var r := StripChars(head + q, Whitespace);
    more := q[..|r| - |head|];
    assert Strip(raw) == r;
  }

  /** Neither fixed part of a tail holds a line boundary. */
  lemma TailTextOneLine()
    ensures NoneOf("(pid ", LineBoundaries) && NoneOf(") 7s; run: log: (pid ", LineBoundaries) && NoneOf(") 7s", LineBoundaries)
  {
    var a, b, c := ") 7s; ", "run: log: ", "(pid ";
    forall i | 0 <= i < |a| ensures ' ' <= a[i] <= '~' {
    }
    forall i | 0 <= i < |b| ensures ' ' <= b[i] <= '~' {
    }
    forall i | 0 <= i < |c| ensures ' ' <= c[i] <= '~' {
    }
    assert a + b + c == ") 7s; run: log: (pid ";
    NoneOfAppend(a, b, LineBoundaries);
    NoneOfAppend(a + b, c, LineBoundaries);
  }

  /** A line of the sample holds no line boundary when its parts hold none. */
  lemma SampleLineOneLine(tag: string, name: string, pid: string, logPid: string)
    requires tag == "run" || tag == "failed"
    requires NoneOf(name, LineBoundaries) && NoneOf(pid, LineBoundaries) && NoneOf(logPid, LineBoundaries)
    ensures NoneOf(StatusLineText(tag, name, Tail(pid, logPid)), LineBoundaries)
  {
    TailTextOneLine();
    assert NoneOf(": ", LineBoundaries) && NoneOf(tag, LineBoundaries);
    NoneOfAppend("(pid ", pid, LineBoundaries);
    NoneOfAppend("(pid " + pid, ") 7s; run: log: (pid ", LineBoundaries);
    NoneOfAppend("(pid " + pid + ") 7s; run: log: (pid ", logPid, LineBoundaries);
    NoneOfAppend("(pid " + pid + ") 7s; run: log: (pid " + logPid, ") 7s", LineBoundaries);
    NoneOfAppend(tag, ": ", LineBoundaries);
    NoneOfAppend(tag + ": ", name, LineBoundaries);
    NoneOfAppend(tag + ": " + name, ": ", LineBoundaries);
    NoneOfAppend(tag + ": " + name + ": ", Tail(pid, logPid), LineBoundaries);
  }

  /** A name of lower-case letters is a well-formed service name. */
  lemma LowerCaseName(name: string)
    requires name != [] && forall i :: 0 <= i < |name| ==> 'a' <= name[i] <= 'z'
    ensures ':' !in name && Trimmed(name, Whitespace) && NoneOf(name, LineBoundaries)
  {
  }

  /** A process id of digits holds no line boundary. */
  lemma DigitsOneLine(pid: string)
    requires forall i :: 0 <= i < |pid| ==> '0' <= pid[i] <= '9'
    ensures NoneOf(pid, LineBoundaries)
  {
  }

  /**
   * A sample line with a lower-case name and two digit-only process ids records the name
   * with the tag's status, and is one line.
   */
  lemma SampleLineFacts(tag: string, name: string, pid: string, logPid: string)
    requires tag == "run" || tag == "failed"
    requires name != [] && forall i :: 0 <= i < |name| ==> 'a' <= name[i] <= 'z'
    requires forall i :: 0 <= i < |pid| ==> '0' <= pid[i] <= '9'
    requires forall i :: 0 <= i < |logPid| ==> '0' <= logPid[i] <= '9'
    ensures Classify(StatusLineText(tag, name, Tail(pid, logPid))) == Service(name, if tag == "run" then Running else Failed)
    ensures NoneOf(StatusLineText(tag, name, Tail(pid, logPid)), LineBoundaries)
  {
    LowerCaseName(name);
    DigitsOneLine(pid);
    DigitsOneLine(logPid);
    StatusLine(tag, name, Tail(pid, logPid));
    SampleLineOneLine(tag, name, pid, logPid);
  }

  /** The nginx line records nginx as running, and is one line. */
  lemma NginxLineFacts()
    ensures Classify(NginxLine) == Service("nginx", Running)
    ensures NoneOf(NginxLine, LineBoundaries)
  {
    var name, pid, logPid := "nginx", "972", "971";
    forall i | 0 <= i < |name| ensures 'a' <= name[i] <= 'z' {
    }
    forall i | 0 <= i < 3 ensures '0' <= pid[i] <= '9' && '0' <= logPid[i] <= '9' {
    }
    SampleLineFacts("run", name, pid, logPid);
  }

  /** The postgresql line records postgresql as running, and is one line. */
  lemma PostgresqlLineFacts()
    ensures Classify(PostgresqlLine) == Service("postgresql", Running)
    ensures NoneOf(PostgresqlLine, LineBoundaries)
  {
    var name, pid, logPid := "postgresql", "962", "959";
    forall i | 0 <= i < |name| ensures 'a' <= name[i] <= 'z' {
    }
    forall i | 0 <= i < 3 ensures '0' <= pid[i] <= '9' && '0' <= logPid[i] <= '9' {
    }
    SampleLineFacts("run", name, pid, logPid);
  }

  /** The redis line records redis as running, and is one line. */
  lemma RedisLineFacts()
    ensures Classify(RedisLine) == Service("redis", Running)
    ensures NoneOf(RedisLine, LineBoundaries)
  {
    var name, pid, logPid := "redis", "964", "963";
    forall i | 0 <= i < |name| ensures 'a' <= name[i] <= 'z' {
    }
    forall i | 0 <= i < 3 ensures '0' <= pid[i] <= '9' && '0' <= logPid[i] <= '9' {
    }
    SampleLineFacts("run", name, pid, logPid);
  }

  /** The sidekiq line records sidekiq as failed, and is one line. */
  lemma SidekiqLineFacts()
    ensures Classify(SidekiqLine) == Service("sidekiq", Failed)
    ensures NoneOf(SidekiqLine, LineBoundaries)
  {
    var name, pid, logPid := "sidekiq", "967", "966";
    forall i | 0 <= i < |name| ensures 'a' <= name[i] <= 'z' {
    }
    forall i | 0 <= i < 3 ensures '0' <= pid[i] <= '9' && '0' <= logPid[i] <= '9' {
    }
    SampleLineFacts("failed", name, pid, logPid);
  }

  /** The puma line records puma as running, and is one line. */
  lemma PumaLineFacts()
    ensures Classify(PumaLine) == Service("puma", Running)
    ensures NoneOf(PumaLine, LineBoundaries)
  {
    var name, pid, logPid := "puma", "961", "960";
    forall i | 0 <= i < |name| ensures 'a' <= name[i] <= 'z' {
    }
    forall i | 0 <= i < 3 ensures '0' <= pid[i] <= '9' && '0' <= logPid[i] <= '9' {
    }
    SampleLineFacts("run", name, pid, logPid);
  }

  /** The status dict of the sample: every service, in output order, with its status. */
  const SampleStatus: Dict<string> :=
    Dict(["nginx", "postgresql", "redis", "sidekiq", "puma"],
         map["nginx" := Running, "postgresql" := Running, "redis" := Running, "sidekiq" := Failed, "puma" := Running])

  /** The sample's five services, in order. */
  const SampleKindList: seq<LineKind> :=
    [Service("nginx", Running), Service("postgresql", Running), Service("redis", Running), Service("sidekiq", Failed), Service("puma", Running)]

  /** One more service line: the loop body assigns it and, when failed, appends it. */
  lemma ParseService(ks: seq<LineKind>, p: Parsed, name: string, status: string)
    requires ParseKinds(ks) == Ok(p)
    ensures ParseKinds(ks + [Service(name, status)])
            == Ok(Parsed(p.status.Put(name, status), if status == Failed then p.failed + [name] else p.failed))
  {
    assert (ks + [Service(name, status)])[..|ks|] == ks;
  }

  /** The assignments of the sample, in order, build the sample's dict. */
  lemma SampleDict()
    ensures Empty<string>().Put("nginx", Running).Put("postgresql", Running).Put("redis", Running)
              .Put("sidekiq", Failed).Put("puma", Running) == SampleStatus
  {
    var d1 := Empty<string>().Put("nginx", Running);
    var d2 := d1.Put("postgresql", Running);
    var d3 := d2.Put("redis", Running);
    var d4 := d3.Put("sidekiq", Failed);
    var d5 := d4.Put("puma", Running);
    assert d5.keys == ["nginx", "postgresql", "redis", "sidekiq", "puma"];
    assert d5.entries == SampleStatus.entries;
  }

  /** Feeding the sample's five services to the loop body, one after the other, gives the sample's result. */
  lemma SampleSteps()
    ensures ParseKinds(SampleKindList) == Ok(Parsed(SampleStatus, ["sidekiq"]))
  {
    var d1 := Empty<string>().Put("nginx", Running);
    var d2 := d1.Put("postgresql", Running);
    var d3 := d2.Put("redis", Running);
    var d4 := d3.Put("sidekiq", Failed);
    var ks := SampleKindList;
    assert ParseKinds([]) == Ok(Parsed(Empty(), []));
    ParseService([], Parsed(Empty(), []), "nginx", Running);
    assert [] + [ks[0]] == ks[..1];
    ParseService(ks[..1], Parsed(d1, []), "postgresql", Running);
    assert ks[..1] + [ks[1]] == ks[..2];
    ParseService(ks[..2], Parsed(d2, []), "redis", Running);
    assert ks[..2] + [ks[2]] == ks[..3];
    ParseService(ks[..3], Parsed(d3, []), "sidekiq", Failed);
    assert [] + ["sidekiq"] == ["sidekiq"];
    assert ks[..3] + [ks[3]] == ks[..4];
    ParseService(ks[..4], Parsed(d4, ["sidekiq"]), "puma", Running);
    assert ks[..4] + [ks[4]] == ks;
    SampleDict();
  }

  /** Five lines joined by sep, between a leading and a trailing sep, written out. */
  lemma FiveLines(sep: string, a: string, b: string, c: string, d: string, e: string)
    ensures sep + a + sep + b + sep + c + sep + d + sep + e + sep == sep + Join(sep, [a, b, c, d, e]) + sep
  {
    assert Join(sep, [e]) == e;
    assert Join(sep, [d, e]) == d + sep + e by {
      assert [d, e][1..] == [e];
    }
    assert Join(sep, [c, d, e]) == c + sep + (d + sep + e) by {
      assert [c, d, e][1..] == [d, e];
    }
    assert Join(sep, [b, c, d, e]) == b + sep + (c + sep + (d + sep + e)) by {
      assert [b, c, d, e][1..] == [c, d, e];
    }
    assert Join(sep, [a, b, c, d, e]) == a + sep + (b + sep + (c + sep + (d + sep + e))) by {
      assert [a, b, c, d, e][1..] == [b, c, d, e];
    }
  }

  /** A join ends with its last part, when that is not empty. */
  lemma {:induction false} JoinLast(sep: string, xs: seq<string>)
    requires xs != [] && xs[|xs| - 1] != []
    ensures Join(sep, xs) != []
    ensures Join(sep, xs)[|Join(sep, xs)| - 1] == xs[|xs| - 1][|xs[|xs| - 1]| - 1]
  {
    if |xs| > 1 {
      var rest := xs[1..];
      assert rest[|rest| - 1] == xs[|xs| - 1];
      JoinLast(sep, rest);
    }
  }

  /** A join starts with its first part, when that is not empty. */
  lemma JoinFirst(sep: string, xs: seq<string>)
    requires xs != [] && xs[0] != []
    ensures Join(sep, xs) != [] && Join(sep, xs)[0] == xs[0][0]
  {
  }

  /** A sample line starts with its tag and ends with its tail. */
  lemma LineEnds(tag: string, name: string, tail: string)
    requires tag != [] && tail != []
    ensures StatusLineText(tag, name, tail)[0] == tag[0]
    ensures StatusLineText(tag, name, tail)[|StatusLineText(tag, name, tail)| - 1] == tail[|tail| - 1]
  {
  }

  /** `SAMPLE_OUTPUT.strip()` drops the leading and the trailing newline and keeps the lines joined by "\n". */
  lemma SampleStripped()
    ensures Strip(SampleOutput) == Join("\n", SampleLines)
  {
    var j := Join("\n", SampleLines);
    FiveLines("\n", NginxLine, PostgresqlLine, RedisLine, SidekiqLine, PumaLine);
    assert SampleOutput == "\n" + j + "\n";
    assert j != [] && j[0] == 'r' && j[|j| - 1] == 's' by {
      LineEnds("run", "nginx", Tail("972", "971"));
      LineEnds("run", "puma", Tail("961", "960"));
      JoinFirst("\n", SampleLines);
      JoinLast("\n", SampleLines);
    }
    assert Trimmed(j, Whitespace) by {
      LettersNotSpace();
    }
    assert '\n' in Whitespace;
    StripSurrounded('\n', j, '\n', Whitespace);
  }

  /** Five one-line parts joined by "\n" split back into those parts. */
  lemma SplitFive(a: string, b: string, c: string, d: string, e: string)
    requires NoneOf(a, LineBoundaries) && NoneOf(b, LineBoundaries) && NoneOf(c, LineBoundaries)
    requires NoneOf(d, LineBoundaries) && NoneOf(e, LineBoundaries) && e != []
    ensures Lines(Join("\n", [a, b, c, d, e]), LineBoundaries) == [a, b, c, d, e]
  {
    var xs := [a, b, c, d, e];
    assert forall k :: 0 <= k < |xs| ==> NoneOf(xs[k], LineBoundaries);
    assert '\n' in LineBoundaries;
    LinesJoin(xs, LineBoundaries);
  }

  /** The stripped sample splits into its five lines. */
  lemma SampleSplit()
    ensures Lines(Strip(SampleOutput), LineBoundaries) == SampleLines
  {
    SampleStripped();
    NginxLineFacts();
    PostgresqlLineFacts();
    RedisLineFacts();
    SidekiqLineFacts();
    PumaLineFacts();
    LineEnds("run", "puma", Tail("961", "960"));
    SplitFive(NginxLine, PostgresqlLine, RedisLine, SidekiqLine, PumaLine);
  }

  /** Line 62 then lines 73-83 on the sample: five services recorded in order, and only sidekiq failed. */
  lemma SampleParse()
    ensures Parse(Strip(SampleOutput)) == Ok(Parsed(SampleStatus, ["sidekiq"]))
  {
    SampleSplit();
    SampleKinds();
    SampleSteps();
  }

  /** A sequence of five elements, written out. */
  lemma FiveElements<T>(xs: seq<T>, a: T, b: T, c: T, d: T, e: T)
    requires |xs| == 5 && xs[0] == a && xs[1] == b && xs[2] == c && xs[3] == d && xs[4] == e
    ensures xs == [a, b, c, d, e]
  {
  }

  /** Each line of the sample classifies as its entry of SampleKindList. */
  lemma SampleKinds()
    ensures Kinds(SampleLines) == SampleKindList
  {
    var ks := Kinds(SampleLines);
    var k0, k1, k2, k3, k4 := ks[0], ks[1], ks[2], ks[3], ks[4];
    assert k0 == Service("nginx", Running) by {
      NginxLineFacts();
    }
    assert k1 == Service("postgresql", Running) by {
      PostgresqlLineFacts();
    }
    assert k2 == Service("redis", Running) by {
      RedisLineFacts();
    }
    assert k3 == Service("sidekiq", Failed) by {
      SidekiqLineFacts();
    }
    assert k4 == Service("puma", Running) by {
      PumaLineFacts();
    }
    FiveElements(ks, k0, k1, k2, k3, k4);
  }
}
