/**
 * The status file: lines 124-126 of gitlab_status_monitor.py write one `name:status` line
 * per entry of `new_status`, in insertion order; lines 43-48 read it back into
 * `previous_status`, splitting every line that holds a ':' at its first ':' and skipping
 * the others.
 */
module Snapshot {
  import opened Text
  import opened Dicts

  /** `f"{svc}:{stat}"`, without its newline. */
  function EntryLine(name: string, status: string): string
  {
    name + [':'] + status
  }

  /** The line of every entry, in insertion order. */
  function EntryLines(d: Dict<string>): (ls: seq<string>)
    requires d.Valid()
    ensures |ls| == |d.keys|
    ensures forall i :: 0 <= i < |d.keys| ==> d.keys[i] in d.entries && ls[i] == EntryLine(d.keys[i], d.entries[d.keys[i]])
  {
    assert forall i :: 0 <= i < |d.keys| ==> d.keys[i] in d.keys;
    seq(|d.keys|, i requires 0 <= i < |d.keys| => EntryLine(d.keys[i], d.entries[d.keys[i]]))
  }

  /** The text of the status file once `new_status` is saved: empty for an empty dict, else ended by "\n". */
  function Serialize(d: Dict<string>): (text: string)
    requires d.Valid()
    ensures text == [] <==> d.keys == []
    ensures text != [] ==> text[|text| - 1] == '\n'
  {
    Terminated(EntryLines(d))
  }

  /** Lines 124-126: the writer loop. */
  method WriteStatus(d: Dict<string>) returns (text: string)
    requires d.Valid()
    ensures text == Serialize(d)
  {
    ghost var lines := EntryLines(d);
    text := "";
    for i := 0 to |d.keys|
      invariant text == Terminated(lines[..i])
    {
      var svc := d.keys[i];
      var stat := d.entries[svc];
      WriteStep(lines, i, text, svc, stat);
      text := text + svc + ":" + stat + "\n";
    }
    assert lines[..|d.keys|] == lines;
  }

  /** One pass of the writer loop appends the next entry line and its newline. */
  lemma WriteStep(lines: seq<string>, i: nat, text: string, svc: string, stat: string)
    requires i < |lines| && lines[i] == EntryLine(svc, stat) && text == Terminated(lines[..i])
    ensures text + svc + ":" + stat + "\n" == Terminated(lines[..i + 1])
  {
    assert lines[..i + 1] == lines[..i] + [lines[i]];
    TerminatedSnoc(lines[..i], lines[i]);
  }

  /**
   * What one line of the file does to `previous_status`: nothing when it holds no ':',
   * otherwise one assignment of the stripped line's text before and after its first ':'.
   */
  function LoadLine(d: Dict<string>, line: string): (r: Dict<string>)
    ensures ':' !in line ==> r == d
    ensures ':' in line ==> exists k, v :: ':' !in k && Strip(line) == k + [':'] + v && r == d.Put(k, v)
  {
    if ':' in line then
      SeparatorsNotSpace();
      StripCharsKeeps(line, Whitespace, ':');
      var (service, status) := SplitOnce(Strip(line), ':');
      d.Put(service, status)
    else
      d
  }

  /** `previous_status` after the given lines. */
  function LoadLines(lines: seq<string>): (d: Dict<string>)
    ensures d.Valid()
    ensures forall i :: 0 <= i < |d.keys| ==> ':' !in d.keys[i]
  {
    if lines == [] then Empty()
    else
      var d := LoadLines(lines[..|lines| - 1]);
      LoadLineKeeps(d, lines[|lines| - 1]);
      LoadLine(d, lines[|lines| - 1])
  }

  /** Assigning a key without c keeps every key free of c. */
  lemma PutKeysAvoid(d: Dict<string>, k: string, v: string, c: char)
    requires c !in k && forall i :: 0 <= i < |d.keys| ==> c !in d.keys[i]
    ensures forall i :: 0 <= i < |d.Put(k, v).keys| ==> c !in d.Put(k, v).keys[i]
  {
  }

  /** One line keeps the dict valid and its keys free of ':'. */
  lemma LoadLineKeeps(d: Dict<string>, line: string)
    requires d.Valid() && forall i :: 0 <= i < |d.keys| ==> ':' !in d.keys[i]
    ensures LoadLine(d, line).Valid()
    ensures forall i :: 0 <= i < |LoadLine(d, line).keys| ==> ':' !in LoadLine(d, line).keys[i]
  {
    if ':' in line {
      SeparatorsNotSpace();
      StripCharsKeeps(line, Whitespace, ':');
      var (k, v) := SplitOnce(Strip(line), ':');
      assert LoadLine(d, line) == d.Put(k, v);
      PutValid(d, k, v);
      PutKeysAvoid(d, k, v, ':');
    }
  }

  /** `previous_status` as read from a status file with the given text. */
  function Load(text: string): (d: Dict<string>)
    ensures d.Valid()
    ensures forall i :: 0 <= i < |d.keys| ==> ':' !in d.keys[i]
  {
    LoadLines(Lines(text, FileNewlines))
  }

  /** Lines 43-48: the loader loop. */
  method LoadStatus(text: string) returns (previous: Dict<string>)
    ensures previous == Load(text)
  {
    var lines := Lines(text, FileNewlines);
    previous := Empty();
    for i := 0 to |lines|
      invariant previous == LoadLines(lines[..i])
    {
      LoadLinesSnoc(lines, i);
      var line := lines[i];
      if ':' in line {
        SeparatorsNotSpace();
        StripCharsKeeps(line, Whitespace, ':');
        var (service, status) := SplitOnce(Strip(line), ':');
        previous := previous.Put(service, status);
      }
    }
    assert lines[..|lines|] == lines;
  }

  lemma LoadLinesSnoc(lines: seq<string>, i: nat)
    requires i < |lines|
    ensures LoadLines(lines[..i + 1]) == LoadLine(LoadLines(lines[..i]), lines[i])
  {
    assert lines[..i + 1][..i] == lines[..i];
  }

  /** A key the file can hold: no ':', no newline, and no leading whitespace, which the loader strips. */
  predicate StorableName(k: string)
  {
    ':' !in k && NoneOf(k, FileNewlines) && (k == [] || k[0] !in Whitespace)
  }

  /** A value the file can hold: no newline, and no trailing whitespace, which the loader strips. */
  predicate StorableStatus(v: string)
  {
    NoneOf(v, FileNewlines) && (v == [] || v[|v| - 1] !in Whitespace)
  }

  /** A dict whose every entry survives being written and read back. */
  predicate Storable(d: Dict<string>)
  {
    d.Valid() && forall k :: k in d.entries ==> StorableName(k) && StorableStatus(d.entries[k])
  }

  /** The first n entries of d, in order. */
  function Prefix(d: Dict<string>, n: nat): Dict<string>
    requires d.Valid() && n <= |d.keys|
  {
    Dict(d.keys[..n], map k | k in d.keys[..n] :: d.entries[k])
  }

  /** Reading the line of a storable entry recovers exactly that entry. */
  lemma LoadEntryLine(acc: Dict<string>, k: string, v: string)
    requires StorableName(k) && StorableStatus(v)
    ensures LoadLine(acc, EntryLine(k, v)) == acc.Put(k, v)
  {
    var line := EntryLine(k, v);
    SeparatorsNotSpace();
    assert line[|k|] == ':';
    assert Trimmed(line, Whitespace);
    SplitOnceAt(line, ':', k, v);
  }

  /** One more entry of the prefix is one more assignment. */
  lemma PrefixSnoc(d: Dict<string>, n: nat)
    requires d.Valid() && 0 < n <= |d.keys|
    ensures d.keys[n - 1] in d.entries
    ensures Prefix(d, n) == Prefix(d, n - 1).Put(d.keys[n - 1], d.entries[d.keys[n - 1]])
  {
    var k := d.keys[n - 1];
    var pre := Prefix(d, n - 1);
    assert k in d.keys;
    assert k !in d.keys[..n - 1];
    assert d.keys[..n - 1] + [k] == d.keys[..n];
    assert pre.Put(k, d.entries[k]).entries == Prefix(d, n).entries;
  }

  /** Reading one more entry line adds one more entry. */
  lemma LoadEntryStep(d: Dict<string>, n: nat)
    requires Storable(d) && 0 < n <= |d.keys|
    requires LoadLines(EntryLines(d)[..n - 1]) == Prefix(d, n - 1)
    ensures LoadLines(EntryLines(d)[..n]) == Prefix(d, n)
  {
    var ls := EntryLines(d);
    var k := d.keys[n - 1];
    assert k in d.entries;
    var v := d.entries[k];
    var pre := Prefix(d, n - 1);
    calc {
      LoadLines(ls[..n]);
      { LoadLinesSnoc(ls, n - 1); }
      LoadLine(pre, EntryLine(k, v));
      { LoadEntryLine(pre, k, v); }
      pre.Put(k, v);
      { PrefixSnoc(d, n); }
      Prefix(d, n);
    }
  }

  /** Reading the first n entry lines gives the first n entries. */
  lemma {:induction false} LoadEntryLines(d: Dict<string>, n: nat)
    requires Storable(d) && n <= |d.keys|
    ensures LoadLines(EntryLines(d)[..n]) == Prefix(d, n)
  {
    if n > 0 {
      LoadEntryLines(d, n - 1);
      LoadEntryStep(d, n);
    } else {
      assert Prefix(d, 0).entries == map[];
    }
  }

  /** The line of a storable entry holds no newline. */
  lemma EntryLineOneLine(k: string, v: string)
    requires StorableName(k) && StorableStatus(v)
    ensures NoneOf(EntryLine(k, v), FileNewlines)
  {
    var line := EntryLine(k, v);
    SeparatorsNotSpace();
    forall j | 0 <= j < |line| ensures line[j] !in FileNewlines {
      if j < |k| {
        assert line[j] == k[j];
      } else if j > |k| {
        assert line[j] == v[j - |k| - 1];
      }
    }
  }

  lemma EntryLinesOneLine(d: Dict<string>)
    requires Storable(d)
    ensures forall i :: 0 <= i < |EntryLines(d)| ==> NoneOf(EntryLines(d)[i], FileNewlines)
  {
    var ls := EntryLines(d);
    forall i | 0 <= i < |ls| ensures NoneOf(ls[i], FileNewlines) {
      var k := d.keys[i];
      EntryLineOneLine(k, d.entries[k]);
    }
  }

  /** Loading the serialised dict gives back the same dict: same keys, same order, same values. */
  lemma RoundTrip(d: Dict<string>)
    requires Storable(d)
    ensures Load(Serialize(d)) == d
  {
    var ls := EntryLines(d);
    calc {
      Load(Serialize(d));
      LoadLines(Lines(Terminated(ls), FileNewlines));
      { EntryLinesOneLine(d); LinesTerminated(ls, FileNewlines); }
      LoadLines(ls);
      { assert ls[..|d.keys|] == ls; }
      LoadLines(ls[..|d.keys|]);
      { LoadEntryLines(d, |d.keys|); }
      Prefix(d, |d.keys|);
      { assert d.keys[..|d.keys|] == d.keys; assert Prefix(d, |d.keys|).entries == d.entries; }
      d;
    }
  }
}
