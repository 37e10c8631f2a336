/**
 * The e-mail settings of lines 17-23 of gitlab_status_monitor.py, from the raw values
 * of the `[EMAIL]` section. A recipient list is written like `[a@x, b@y]`: the brackets
 * are stripped, the rest is split at ',' and every entry is stripped, blank ones dropped.
 */
module Config {
  import opened Text

  const Brackets: set<char> := {'[', ']'}

  lemma CommaNotBracket()
    ensures ',' !in Brackets
  {
  }

  /** The stripped non-blank parts, in order. */
  function NonBlank(parts: seq<string>): (r: seq<string>)
    ensures |r| <= |parts|
  {
    if parts == [] then []
    else
      var e := Strip(parts[0]);
      if e == [] then NonBlank(parts[1..]) else [e] + NonBlank(parts[1..])
  }

  /** Every entry is non-empty and stripped. */
  lemma {:induction false} NonBlankEntries(parts: seq<string>)
    ensures forall i :: 0 <= i < |NonBlank(parts)| ==> NonBlank(parts)[i] != [] && Trimmed(NonBlank(parts)[i], Whitespace)
  {
    if parts != [] {
      NonBlankEntries(parts[1..]);
      var e := Strip(parts[0]);
      var rest := NonBlank(parts[1..]);
      if e != [] {
        var r := [e] + rest;
        forall i | 0 <= i < |r| ensures r[i] != [] && Trimmed(r[i], Whitespace) {
          if i > 0 {
            assert r[i] == rest[i - 1];
          }
        }
      }
    }
  }

  /** A character absent from every part is absent from every entry. */
  lemma {:induction false} NonBlankAvoids(parts: seq<string>, c: char)
    requires forall j :: 0 <= j < |parts| ==> c !in parts[j]
    ensures forall i :: 0 <= i < |NonBlank(parts)| ==> c !in NonBlank(parts)[i]
  {
    if parts != [] {
      assert forall j :: 0 <= j < |parts[1..]| ==> c !in parts[1..][j] by {
        forall j | 0 <= j < |parts[1..]| ensures parts[1..][j] == parts[j + 1] {
        }
      }
      NonBlankAvoids(parts[1..], c);
      NonBlankAvoidsStep(parts, c);
    }
  }

  /** The first part adds no c when it holds none. */
  lemma NonBlankAvoidsStep(parts: seq<string>, c: char)
    requires parts != [] && c !in parts[0]
    requires forall i :: 0 <= i < |NonBlank(parts[1..])| ==> c !in NonBlank(parts[1..])[i]
    ensures forall i :: 0 <= i < |NonBlank(parts)| ==> c !in NonBlank(parts)[i]
  {
    NonBlankCons(parts);
    var e := Strip(parts[0]);
    assert c !in e by {
      assert CharsFrom(e, parts[0]);
    }
    var rest := NonBlank(parts[1..]);
    if e != [] {
      forall i | 0 <= i < |[e] + rest| ensures c !in ([e] + rest)[i] {
        if i > 0 {
          assert ([e] + rest)[i] == rest[i - 1];
        }
      }
    }
  }

  /** Lines 17-18: `[e.strip() for e in raw.strip("[]").split(",") if e.strip()]`. */
  function RecipientList(raw: string): (r: seq<string>)
    ensures forall i :: 0 <= i < |r| ==> r[i] != [] && Trimmed(r[i], Whitespace) && ',' !in r[i]
  {
    var parts := Split(StripChars(raw, Brackets), ',');
    NonBlankAvoids(parts, ',');
    NonBlankEntries(parts);
    NonBlank(parts)
  }

  /** Every part stripped. */
  function StripAll(ys: seq<string>): (r: seq<string>)
    ensures |r| == |ys| && forall i :: 0 <= i < |ys| ==> r[i] == Strip(ys[i])
  {
    if ys == [] then [] else [Strip(ys[0])] + StripAll(ys[1..])
  }

  /** Blank parts are dropped and the others stripped, keeping their order. */
  lemma {:induction false} NonBlankOfNonBlank(ys: seq<string>)
    requires forall i :: 0 <= i < |ys| ==> Strip(ys[i]) != []
    ensures NonBlank(ys) == StripAll(ys)
  {
    if ys != [] {
      NonBlankOfNonBlank(ys[1..]);
    }
  }

  /**
   * Writing the entries between brackets, separated by ',', and reading the list back
   * gives the entries stripped, when no entry is blank or holds ',' or a bracket.
   */
  lemma RecipientListOfWritten(ys: seq<string>)
    requires ys != []
    requires forall i :: 0 <= i < |ys| ==> Strip(ys[i]) != [] && ',' !in ys[i] && NoneOf(ys[i], Brackets)
    ensures RecipientList("[" + Join(",", ys) + "]") == StripAll(ys)
  {
    var s := Join(",", ys);
    assert forall i :: 0 <= i < |ys| ==> ys[i] != [] && NoneOf(ys[i], Brackets) by {
      forall i | 0 <= i < |ys| ensures ys[i] != [] {
        assert Strip(ys[i]) != [];
      }
    }
    calc {
      RecipientList("[" + s + "]");
      { assert "[" + s + "]" == ['['] + s + [']']; }
      NonBlank(Split(StripChars(['['] + s + [']'], Brackets), ','));
      { CommaNotBracket(); JoinEnds(ys, Brackets); StripSurrounded('[', s, ']', Brackets); }
      NonBlank(Split(s, ','));
      { SplitJoin(',', ys); }
      NonBlank(ys);
      { NonBlankOfNonBlank(ys); }
      StripAll(ys);
    }
  }

  /** One more part adds its stripped text, unless that is blank. */
  lemma {:induction false} NonBlankSnoc(ys: seq<string>, y: string)
    ensures NonBlank(ys + [y]) == NonBlank(ys) + (if Strip(y) == [] then [] else [Strip(y)])
  {
    if ys == [] {
      NonBlankSingle(y);
    } else {
      NonBlankSnoc(ys[1..], y);
      NonBlankSnocStep(ys, y);
    }
  }

  lemma NonBlankSingle(y: string)
    ensures NonBlank([] + [y]) == NonBlank([]) + (if Strip(y) == [] then [] else [Strip(y)])
  {
    assert [] + [y] == [y];
    NonBlankCons([y]);
    assert [y][1..] == [];
  }

  /** The snoc property for ys follows from the one for ys without its first part. */
  lemma NonBlankSnocStep(ys: seq<string>, y: string)
    requires ys != []
    requires NonBlank(ys[1..] + [y]) == NonBlank(ys[1..]) + (if Strip(y) == [] then [] else [Strip(y)])
    ensures NonBlank(ys + [y]) == NonBlank(ys) + (if Strip(y) == [] then [] else [Strip(y)])
  {
    var zs := ys + [y];
    SnocTail(ys, y);
    NonBlankCons(zs);
    NonBlankCons(ys);
    var h := if Strip(ys[0]) == [] then [] else [Strip(ys[0])];
    var l := if Strip(y) == [] then [] else [Strip(y)];
    Associate(h, NonBlank(ys[1..]), l);
  }

  lemma SnocTail<T>(xs: seq<T>, y: T)
    requires xs != []
    ensures (xs + [y])[0] == xs[0] && (xs + [y])[1..] == xs[1..] + [y]
  {
  }

  lemma Associate<T>(a: seq<T>, b: seq<T>, c: seq<T>)
    ensures a + (b + c) == (a + b) + c
  {
  }

  /** The first part contributes its stripped text, unless that is blank. */
  lemma NonBlankCons(xs: seq<string>)
    requires xs != []
    ensures NonBlank(xs) == (if Strip(xs[0]) == [] then [] else [Strip(xs[0])]) + NonBlank(xs[1..])
  {
  }

  /** `"[]"` is the empty recipient list. */
  lemma EmptyRecipientList()
    ensures RecipientList("[]") == []
  {
    BracketsOnly();
    EmptySplit();
  }

  lemma BracketsOnly()
    ensures StripChars("[]", Brackets) == []
  {
    assert "[]"[0] in Brackets && "[]"[1] in Brackets;
  }

  /** The empty text splits into one blank part, which is dropped. */
  lemma EmptySplit()
    ensures NonBlank(Split([], ',')) == []
  {
    EmptySplitOne();
    BlankDropped();
  }

  lemma EmptySplitOne()
    ensures Split([], ',') == [[]]
  {
  }

  lemma BlankDropped()
    ensures NonBlank([[]]) == []
  {
    var e: string := [];
    assert Strip(e) == [];
    assert [e][1..] == [];
  }

  /** A trailing ',' adds a blank part, which is dropped: `"[a,b,]"` reads as `"[a,b]"`. */
  lemma RecipientListTrailingComma(ys: seq<string>)
    requires ys != []
    requires forall i :: 0 <= i < |ys| ==> Strip(ys[i]) != [] && ',' !in ys[i] && NoneOf(ys[i], Brackets)
    ensures RecipientList("[" + Join(",", ys + [""]) + "]") == StripAll(ys)
  {
    var s := Join(",", ys);
    var zs := ys + [""];
    TrailingJoin(ys);
    TrailingTrimmed(ys);
    SnocCommaFree(ys);
    calc {
      RecipientList("[" + Join(",", zs) + "]");
      { assert "[" + Join(",", zs) + "]" == ['['] + (s + ",") + [']']; }
      NonBlank(Split(StripChars(['['] + (s + ",") + [']'], Brackets), ','));
      { StripSurrounded('[', s + ",", ']', Brackets); }
      NonBlank(Split(s + ",", ','));
      { SplitJoin(',', zs); }
      NonBlank(zs);
      { NonBlankSnoc(ys, ""); assert Strip("") == []; }
      NonBlank(ys);
      { NonBlankOfNonBlank(ys); }
      StripAll(ys);
    }
  }

  lemma TrailingJoin(ys: seq<string>)
    requires ys != []
    ensures Join(",", ys + [""]) == Join(",", ys) + ","
  {
    JoinAppend(",", ys, [""]);
    assert Join(",", [""]) == "";
  }

  /** A join of well-formed entries followed by ',' neither starts nor ends with a bracket. */
  lemma TrailingTrimmed(ys: seq<string>)
    requires ys != []
    requires forall i :: 0 <= i < |ys| ==> Strip(ys[i]) != [] && NoneOf(ys[i], Brackets)
    ensures Join(",", ys) + "," != [] && Trimmed(Join(",", ys) + ",", Brackets)
  {
    var s := Join(",", ys);
    assert forall i :: 0 <= i < |ys| ==> ys[i] != [] && NoneOf(ys[i], Brackets) by {
      forall i | 0 <= i < |ys| ensures ys[i] != [] {
        assert Strip(ys[i]) != [];
      }
    }
    CommaNotBracket();
    JoinEnds(ys, Brackets);
    assert (s + ",")[0] == s[0];
  }

  lemma SnocCommaFree(ys: seq<string>)
    requires forall i :: 0 <= i < |ys| ==> ',' !in ys[i]
    ensures forall k :: 0 <= k < |ys + [""]| ==> ',' !in (ys + [""])[k]
  {
    var zs := ys + [""];
    forall k | 0 <= k < |zs| ensures ',' !in zs[k] {
      if k < |ys| {
        assert zs[k] == ys[k];
      }
    }
  }

  /** A join of parts from which cs is absent starts and ends outside cs. */
  lemma {:induction false} JoinEnds(ys: seq<string>, cs: set<char>)
    requires ys != [] && ',' !in cs
    requires forall i :: 0 <= i < |ys| ==> ys[i] != [] && NoneOf(ys[i], cs)
    ensures Join(",", ys) != [] && Trimmed(Join(",", ys), cs)
  {
    var s := Join(",", ys);
    if |ys| == 1 {
      assert s == ys[0];
    } else {
      JoinEnds(ys[1..], cs);
      var rest := Join(",", ys[1..]);
      assert s == ys[0] + "," + rest;
      assert s[0] == ys[0][0];
      assert s[|s| - 1] == rest[|rest| - 1];
    }
  }

  /** Line 23: `EMAIL_SUBJECT` is its raw value with surrounding brackets stripped. */
  function Subject(raw: string): (r: string)
    ensures Trimmed(r, Brackets) && Unpadded(r, raw, Brackets)
    ensures Trimmed(raw, Brackets) ==> r == raw
  {
    StripChars(raw, Brackets)
  }

  /** The resolved e-mail settings. SMTP server, port and password are not part of this model. */
  datatype Settings = Settings(to: seq<string>, cc: seq<string>, sender: string, subject: string)

  /** Lines 17-23: the settings from the raw values of `EMAIL_TO`, `EMAIL_CC`, `EMAIL_FROM` and `EMAIL_SUBJECT`. */
  function LoadSettings(rawTo: string, rawCc: string, rawFrom: string, rawSubject: string): (s: Settings)
    ensures s.to == RecipientList(rawTo) && s.cc == RecipientList(rawCc)
    ensures forall i :: 0 <= i < |s.to| ==> s.to[i] != [] && Trimmed(s.to[i], Whitespace) && ',' !in s.to[i]
    ensures forall i :: 0 <= i < |s.cc| ==> s.cc[i] != [] && Trimmed(s.cc[i], Whitespace) && ',' !in s.cc[i]
    ensures Trimmed(s.sender, Whitespace) && Unpadded(s.sender, rawFrom, Whitespace)
    ensures Trimmed(s.subject, Brackets) && Unpadded(s.subject, rawSubject, Brackets)
  {
    Settings(RecipientList(rawTo), RecipientList(rawCc), Strip(rawFrom), Subject(rawSubject))
  }
}
