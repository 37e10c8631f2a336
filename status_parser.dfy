/**
 * The parser of `gitlab-ctl status` output (gitlab_status_monitor.py, lines 73-83): every
 * non-blank line `<tag>: <name>: ...` records the service `<name>` as "running" when the
 * line starts with `run:` and as "failed" otherwise, and every failed line appends its
 * service to the list of failed services.
 */
module StatusParser {
  import opened Wrappers
  import opened Text
  import opened Dicts

  const Running := "running"
  const Failed := "failed"

  /** A service name as the parser produces it: stripped, without ':' and without line boundaries. */
  predicate ServiceName(n: string)
  {
    ':' !in n && NoneOf(n, LineBoundaries) && Trimmed(n, Whitespace)
  }

  /** What one line of the output contributes. */
  datatype LineKind =
    | Blank                                   // empty once stripped: skipped
    | Malformed(line: string)                 // no ':': `line.split(":")[1]` raises IndexError
    | Service(name: string, status: string)   // `new_status[name] = status`

  /**
   * How the loop body treats one line of `output.splitlines()`: a whitespace-only line is
   * skipped, a raising line is reported by its non-empty stripped text without ':', and a
   * service line gets one of the two statuses.
   */
  function Classify(raw: string): (k: LineKind)
    ensures k.Blank? <==> forall i :: 0 <= i < |raw| ==> raw[i] in Whitespace
    ensures k.Malformed? ==> k.line != [] && ':' !in k.line
    ensures k.Service? ==> k.status == Running || k.status == Failed
  {
    var line := Strip(raw);
    if line == [] then Blank
    else if ':' !in line then Malformed(line)
    else Service(Strip(Split(line, ':')[1]), if "run:" <= line then Running else Failed)
  }

  /**
   * A line is skipped exactly when it is whitespace only, raises exactly when it holds no ':',
   * and otherwise names a service that is "running" exactly when the stripped line starts
   * with `run:`; the name is stripped and holds no ':' and only characters of the line.
   */
  lemma ClassifyFacts(raw: string)
    ensures Classify(raw).Blank? <==> forall i :: 0 <= i < |raw| ==> raw[i] in Whitespace
    ensures Classify(raw).Malformed? <==> Strip(raw) != [] && ':' !in Strip(raw)
    ensures Classify(raw).Malformed? ==> Classify(raw).line == Strip(raw)
    ensures Classify(raw).Service? ==> (Classify(raw).status == Running <==> "run:" <= Strip(raw))
    ensures Classify(raw).Service? ==> (Classify(raw).status == Running || Classify(raw).status == Failed)
    ensures Classify(raw).Service? ==> ServiceNameOf(Classify(raw).name, raw)
  {
    var line := Strip(raw);
    if line != [] && ':' in line {
      var parts := Split(line, ':');
      assert CharsFrom(parts[1], line);
    }
  }

  /** n is stripped, holds no ':' and only characters of the line raw. */
  predicate ServiceNameOf(n: string, raw: string)
  {
    ':' !in n && Trimmed(n, Whitespace) && CharsFrom(n, raw)
  }

  /** The service name is the stripped text between the first and the second ':'. */
  lemma NameIsSecondField(raw: string, tag: string, field: string, rest: string)
    requires Strip(raw) == tag + [':'] + (field + rest)
    requires ':' !in tag && ':' !in field && (rest == [] || rest[0] == ':')
    ensures Classify(raw).Service? && Classify(raw).name == Strip(field)
  {
    var line := Strip(raw);
    assert line[|tag|] == ':';
    SplitCons(tag, ':', field + rest);
    SplitHead(field, ':', rest);
    assert Split(line, ':')[1] == field;
  }

  /** The dict `new_status` and the list `failed_services`. */
  datatype Parsed = Parsed(status: Dict<string>, failed: seq<string>)

  /** What each line contributes, in order. */
  function Kinds(lines: seq<string>): (ks: seq<LineKind>)
    ensures |ks| == |lines|
    ensures forall i :: 0 <= i < |lines| ==> ks[i] == Classify(lines[i])
  {
    seq(|lines|, i requires 0 <= i < |lines| => Classify(lines[i]))
  }

  lemma KindsAppend(a: seq<string>, b: seq<string>)
    ensures Kinds(a + b) == Kinds(a) + Kinds(b)
  {
    var l, r := Kinds(a + b), Kinds(a) + Kinds(b);
    forall i | 0 <= i < |l| ensures l[i] == r[i] {
      if i < |a| {
        assert (a + b)[i] == a[i];
      } else {
        assert (a + b)[i] == b[i - |a|];
      }
    }
  }

  lemma KindsSnoc(lines: seq<string>, i: nat)
    requires i < |lines|
    ensures Kinds(lines[..i + 1]) == Kinds(lines[..i]) + [Classify(lines[i])]
    ensures Kinds(lines[..i + 1])[..i] == Kinds(lines[..i])
  {
    var ks := Kinds(lines[..i]);
    assert Kinds(lines[..i + 1]) == ks + [Classify(lines[i])] by {
      assert lines[..i + 1] == lines[..i] + [lines[i]];
      KindsAppend(lines[..i], [lines[i]]);
    }
    assert (ks + [Classify(lines[i])])[..i] == ks;
  }

  /** The state of the loop after the given lines, or the first malformed line, on which it raises. */
  function ParseKinds(ks: seq<LineKind>): Result<Parsed, string>
  {
    if ks == [] then Ok(Parsed(Empty(), [])) else Step(ParseKinds(ks[..|ks| - 1]), ks[|ks| - 1])
  }

  /** One pass of the loop body: skip, raise, or record the service. */
  function Step(r: Result<Parsed, string>, k: LineKind): Result<Parsed, string>
  {
    match r
    case Err(e) => Err(e)
    case Ok(p) =>
      match k
      case Blank => Ok(p)
      case Malformed(line) => Err(line)
      case Service(name, status) =>
        Ok(Parsed(p.status.Put(name, status), if status == Failed then p.failed + [name] else p.failed))
  }

  /** The state after one more line is one more step. */
  lemma ParseSnoc(lines: seq<string>, i: nat)
    requires i < |lines|
    ensures ParseKinds(Kinds(lines[..i + 1])) == Step(ParseKinds(Kinds(lines[..i])), Classify(lines[i]))
  {
    KindsSnoc(lines, i);
  }

  /** Parsing the output of `gitlab-ctl status`; a raise reports a non-empty line without ':'. */
  function Parse(output: string): (r: Result<Parsed, string>)
    ensures r.Err? ==> r.error != [] && ':' !in r.error
  {
    var ks := Kinds(Lines(output, LineBoundaries));
    ParseErrorMalformed(ks);
    ParseKinds(ks)
  }

  /** The error of a failed parse is the text of a malformed line. */
  lemma {:induction false} ParseErrorMalformed(ks: seq<LineKind>)
    requires forall i :: 0 <= i < |ks| && ks[i].Malformed? ==> ks[i].line != [] && ':' !in ks[i].line
    ensures ParseKinds(ks).Err? ==> ParseKinds(ks).error != [] && ':' !in ParseKinds(ks).error
  {
    if ks != [] {
      var init := ks[..|ks| - 1];
      assert forall i :: 0 <= i < |init| ==> init[i] == ks[i];
      ParseErrorMalformed(init);
    }
  }

  /** Lines 73-83: the parser loop, filling `new_status` and `failed_services`. */
  method ParseStatus(output: string) returns (r: Result<Parsed, string>)
    ensures r == Parse(output)
  {
    var lines := Lines(output, LineBoundaries);
    var newStatus := Empty<string>();
    var failedServices: seq<string> := [];
    var i := 0;
    while i < |lines|
      invariant i <= |lines|
      invariant ParseKinds(Kinds(lines[..i])) == Ok(Parsed(newStatus, failedServices))
    {
      var line := Strip(lines[i]);
      if line == [] {
        BlankStep(lines, i, Parsed(newStatus, failedServices));
        i := i + 1;
        continue;
      }
      if ':' !in line {
        MalformedStep(lines, i, Parsed(newStatus, failedServices));
        return Err(line);
      }
      ServiceStep(lines, i, Parsed(newStatus, failedServices));
      var serviceName := Strip(Split(line, ':')[1]);
      var status := if "run:" <= line then Running else Failed;
      newStatus := newStatus.Put(serviceName, status);
      if status == Failed {
        failedServices := failedServices + [serviceName];
      }
      i := i + 1;
    }
    assert lines[..i] == lines;
    return Ok(Parsed(newStatus, failedServices));
  }

  /** A blank line leaves the state as it is. */
  lemma BlankStep(lines: seq<string>, i: nat, p: Parsed)
    requires i < |lines| && ParseKinds(Kinds(lines[..i])) == Ok(p) && Strip(lines[i]) == []
    ensures ParseKinds(Kinds(lines[..i + 1])) == Ok(p)
  {
    ParseSnoc(lines, i);
  }

  /** A line without ':' is the error of the whole output. */
  lemma MalformedStep(lines: seq<string>, i: nat, p: Parsed)
    requires i < |lines| && ParseKinds(Kinds(lines[..i])) == Ok(p)
    requires Strip(lines[i]) != [] && ':' !in Strip(lines[i])
    ensures ParseKinds(Kinds(lines)) == Err(Strip(lines[i]))
  {
    ParseSnoc(lines, i);
    ErrorStops(lines, i + 1);
  }

  /** A service line records its second field, stripped, and appends it when it failed. */
  lemma ServiceStep(lines: seq<string>, i: nat, p: Parsed)
    requires i < |lines| && ParseKinds(Kinds(lines[..i])) == Ok(p)
    requires ':' in Strip(lines[i])
    ensures var line := Strip(lines[i]);
      var name := Strip(Split(line, ':')[1]);
      var status := if "run:" <= line then Running else Failed;
      ParseKinds(Kinds(lines[..i + 1])) == Ok(Parsed(p.status.Put(name, status), if status == Failed then p.failed + [name] else p.failed))
  {
    ParseSnoc(lines, i);
  }

  /** Once a line raises, the lines after it are never looked at. */
  lemma {:induction false} ErrorPersists(ks: seq<LineKind>, more: seq<LineKind>)
    requires ParseKinds(ks).Err?
    ensures ParseKinds(ks + more) == ParseKinds(ks)
    decreases |more|
  {
    if more != [] {
      var init := more[..|more| - 1];
      ErrorPersists(ks, init);
      assert (ks + more)[..|ks + more| - 1] == ks + init;
    } else {
      assert ks + more == ks;
    }
  }

  /** Once the lines up to some point raise, so do all of them, with the same error. */
  lemma ErrorStops(lines: seq<string>, n: nat)
    requires n <= |lines| && ParseKinds(Kinds(lines[..n])).Err?
    ensures ParseKinds(Kinds(lines)) == ParseKinds(Kinds(lines[..n]))
  {
    ErrorPersists(Kinds(lines[..n]), Kinds(lines[n..]));
    KindsAppend(lines[..n], lines[n..]);
    assert lines[..n] + lines[n..] == lines;
  }

  /** Parsing succeeds exactly when no line is malformed. */
  lemma {:induction false} ParseSucceedsIff(ks: seq<LineKind>)
    ensures ParseKinds(ks).Ok? <==> forall i :: 0 <= i < |ks| ==> !ks[i].Malformed?
  {
    if ks != [] {
      var init := ks[..|ks| - 1];
      ParseSucceedsIff(init);
      assert forall i :: 0 <= i < |init| ==> init[i] == ks[i];
    }
  }

  /** A malformed line is the error of a failed parse exactly when it is the first one. */
  lemma {:induction false} ParseFailsAtFirstMalformed(ks: seq<LineKind>, j: nat)
    requires j < |ks| && ks[j].Malformed?
    requires forall i :: 0 <= i < j ==> !ks[i].Malformed?
    ensures ParseKinds(ks) == Err(ks[j].line)
  {
    var pre := ks[..j + 1];
    ParseSucceedsIff(pre[..j]);
    assert forall i :: 0 <= i < j ==> pre[..j][i] == ks[i];
    ErrorPersists(pre, ks[j + 1..]);
    assert pre + ks[j + 1..] == ks;
  }

  /** A blank line anywhere changes neither the dict nor the failed list. */
  lemma {:induction false} BlankLineSkipped(before: seq<LineKind>, after: seq<LineKind>)
    ensures ParseKinds(before + [Blank] + after) == ParseKinds(before + after)
    decreases |after|
  {
    if after == [] {
      assert (before + [Blank] + after)[..|before|] == before;
      assert before + after == before;
    } else {
      var init := after[..|after| - 1];
      BlankLineSkipped(before, init);
      var a := before + [Blank] + after;
      var b := before + after;
      assert a[..|a| - 1] == before + [Blank] + init;
      assert b[..|b| - 1] == before + init;
      assert a[|a| - 1] == b[|b| - 1];
    }
  }

  /** The (name, status) pair of every service line, in input order. */
  function Entries(ks: seq<LineKind>): seq<(string, string)>
  {
    if ks == [] then []
    else
      var k := ks[|ks| - 1];
      Entries(ks[..|ks| - 1]) + if k.Service? then [(k.name, k.status)] else []
  }

  /** The name of every line that does not start with `run:`, in input order. */
  function FailedLines(ks: seq<LineKind>): seq<string>
  {
    if ks == [] then []
    else
      var k := ks[|ks| - 1];
      FailedLines(ks[..|ks| - 1]) + if k.Service? && k.status == Failed then [k.name] else []
  }

  /** A successful parse assigns every service line, in order, into an empty dict. */
  lemma {:induction false} ParsedDict(ks: seq<LineKind>)
    requires ParseKinds(ks).Ok?
    ensures ParseKinds(ks).value.status == Build(Entries(ks))
    ensures ParseKinds(ks).value.failed == FailedLines(ks)
  {
    if ks != [] {
      var init := ks[..|ks| - 1];
      ParsedDict(init);
      var k := ks[|ks| - 1];
      var es := Entries(ks);
      var q := ParseKinds(init).value;
      if k.Service? {
        assert es == Entries(init) + [(k.name, k.status)];
        assert es[..|es| - 1] == Entries(init);
        assert FailedLines(ks) == FailedLines(init) + if k.status == Failed then [k.name] else [];
        if k.status == Failed {
          assert ParseKinds(ks).value.failed == q.failed + [k.name];
        } else {
          assert ParseKinds(ks).value.failed == q.failed;
          assert FailedLines(ks) == FailedLines(init);
        }
      } else {
        assert es == Entries(init);
        assert FailedLines(ks) == FailedLines(init);
        assert ParseKinds(ks).value == q;
      }
    }
  }

  /** `failed_services` has one entry per failed line, in input order. */
  lemma FailedInInputOrder(ks: seq<LineKind>, p: Parsed)
    requires ParseKinds(ks) == Ok(p)
    ensures p.failed == FailedLines(ks)
  {
    ParsedDict(ks);
  }

  /** A service is a key of `new_status` exactly when some line names it. */
  lemma ParsedKeys(ks: seq<LineKind>, p: Parsed, name: string)
    requires ParseKinds(ks) == Ok(p)
    ensures name in p.status.entries <==> name in Names(Entries(ks))
  {
    ParsedDict(ks);
    BuildKeys(Entries(ks), name);
  }

  /** A repeated service takes the status of the last line that names it. */
  lemma ParsedLastLineWins(ks: seq<LineKind>, p: Parsed, j: nat)
    requires ParseKinds(ks) == Ok(p)
    requires j < |Entries(ks)|
    requires forall j' :: j < j' < |Entries(ks)| ==> Entries(ks)[j'].0 != Entries(ks)[j].0
    ensures Entries(ks)[j].0 in p.status.entries
    ensures p.status.entries[Entries(ks)[j].0] == Entries(ks)[j].1
  {
    ParsedDict(ks);
    BuildLastWins(Entries(ks), j);
  }

  /** A repeated service keeps the position of the first line that names it. */
  lemma ParsedKeyOrder(ks: seq<LineKind>, p: Parsed, i: nat, j: nat)
    requires ParseKinds(ks) == Ok(p)
    requires i < j < |p.status.keys|
    ensures p.status.keys[i] in Names(Entries(ks)) && p.status.keys[j] in Names(Entries(ks))
    ensures IndexOf(Names(Entries(ks)), p.status.keys[i]) < IndexOf(Names(Entries(ks)), p.status.keys[j])
  {
    ParsedDict(ks);
    BuildKeyOrder(Entries(ks), i, j);
  }

  /** What the lines of an output contribute: well-formed names with a "running" or "failed" status. */
  predicate WellFormedKinds(ks: seq<LineKind>)
  {
    forall i :: 0 <= i < |ks| && ks[i].Service? ==>
      ServiceName(ks[i].name) && (ks[i].status == Running || ks[i].status == Failed)
  }

  /** The lines of any output contribute well-formed names. */
  lemma OutputKinds(output: string)
    ensures WellFormedKinds(Kinds(Lines(output, LineBoundaries)))
  {
    var lines := Lines(output, LineBoundaries);
    forall i | 0 <= i < |lines| && Classify(lines[i]).Service?
      ensures ServiceName(Classify(lines[i]).name)
    {
      ClassifyFacts(lines[i]);
      NoneOfCharsFrom(Classify(lines[i]).name, lines[i], LineBoundaries);
    }
    forall i | 0 <= i < |lines| && Classify(lines[i]).Service?
      ensures Classify(lines[i]).status == Running || Classify(lines[i]).status == Failed
    {
      ClassifyFacts(lines[i]);
    }
  }

  /**
   * What a successful parse yields: a valid dict whose keys are well-formed service names
   * mapped to "running" or "failed"; every failed service is a key; every key mapped to
   * "failed" is in the failed list.
   */
  lemma {:induction false} ParsedShape(ks: seq<LineKind>, p: Parsed)
    requires ParseKinds(ks) == Ok(p)
    requires WellFormedKinds(ks)
    ensures p.status.Valid()
    ensures forall n :: n in p.failed ==> n in p.status.entries
    ensures forall n :: n in p.status.entries ==> ServiceName(n)
    ensures forall n :: n in p.status.entries ==> p.status.entries[n] == Running || p.status.entries[n] == Failed
    ensures forall n :: n in p.status.entries && p.status.entries[n] == Failed ==> n in p.failed
  {
    if ks != [] {
      var init := ks[..|ks| - 1];
      assert forall i :: 0 <= i < |init| ==> init[i] == ks[i];
      var q :| ParseKinds(init) == Ok(q);
      ParsedShape(init, q);
      var k := ks[|ks| - 1];
      if k.Service? {
        var d := q.status.Put(k.name, k.status);
        assert p.status == d;
        assert ServiceName(k.name);
        forall n | n in d.entries ensures ServiceName(n) && (d.entries[n] == Running || d.entries[n] == Failed) {
          if n != k.name {
            assert n in q.status.entries;
          }
        }
        forall n | n in p.failed ensures n in d.entries {
          if n != k.name {
            assert n in q.failed;
          }
        }
        forall n | n in d.entries && d.entries[n] == Failed ensures n in p.failed {
          if n != k.name {
            assert n in q.status.entries && q.status.entries[n] == Failed;
          }
        }
      } else {
        assert p == q;
      }
    }
  }
}
