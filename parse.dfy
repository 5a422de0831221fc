/** `parseText`: turns a word list into fresh cards. Each line is trimmed,
    blank lines are dropped, a line is split on its first tab or, lacking a
    tab, on its first " - ", the first two fields (trimmed) become term and
    meaning, and lines with neither separator are dropped. */
module Parse {

  import opened Options
  import opened Text
  import opened Cards

  const Tab: string := "\t"
  const Dash: string := " - "

  /** A parsed line before it becomes a card. */
  datatype Entry = Entry(term: string, meaning: string)

  /** Whether `line` has a separator `parseText` splits on. */
  predicate HasSeparator(line: string)
  {
    Includes(line, Tab) || Includes(line, Dash)
  }

  /** What every entry `parseText` produces satisfies: a non-empty term,
      both fields trimmed, and no tab in either field. */
  predicate WellFormed(e: Entry)
  {
    e.term != [] && IsTrimmed(e.term) && IsTrimmed(e.meaning)
    && '\t' !in e.term && '\t' !in e.meaning
  }

  /** The `map` callback of `parseText` on a trimmed, non-blank line: the
      tab takes priority over " - "; `None` is the callback's `null`. */
  function ParseLine(line: string): (r: Option<Entry>)
    requires line != [] && !IsWhitespace(line[0])
    ensures r.Some? <==> HasSeparator(line)
    ensures r.Some? ==> WellFormed(r.value)
    ensures r.Some? && !Includes(line, Tab) ==> !Includes(r.value.term, Dash) && !Includes(r.value.meaning, Dash)
    ensures r.Some? && '\n' !in line ==> '\n' !in r.value.term && '\n' !in r.value.meaning
  {
    if !HasSeparator(line) then None
    else
      var sep := if Includes(line, Tab) then Tab else Dash;
      var fields := FirstTwoFields(line, sep);
      FieldFacts(line, sep, fields.0, fields.1);
      Some(Entry(Trim(fields.0), Trim(fields.1)))
  }

  /** What the two fields of a split line inherit from the line. */
  lemma FieldFacts(line: string, sep: string, a: string, b: string)
    requires line != [] && !IsWhitespace(line[0])
    requires sep == Tab || (sep == Dash && !Includes(line, Tab))
    requires a + sep + b <= line && !Includes(a, sep) && !Includes(b, sep)
    ensures WellFormed(Entry(Trim(a), Trim(b)))
    ensures sep == Dash ==> !Includes(Trim(a), Dash) && !Includes(Trim(b), Dash)
    ensures '\n' !in line ==> '\n' !in Trim(a) && '\n' !in Trim(b)
  {
    assert a + sep + b == line[..|a| + |sep| + |b|];
    assert forall c :: c in a ==> c in line by {
      forall k | 0 <= k < |a| ensures a[k] in line {
        assert a[k] == (a + sep + b)[k];
      }
    }
    assert forall c :: c in b ==> c in line by {
      forall k | 0 <= k < |b| ensures b[k] in line {
        assert b[k] == (a + sep + b)[|a| + |sep| + k];
      }
    }
    if sep == Tab {
      NoCharWhenNotIncluded(a, '\t');
      NoCharWhenNotIncluded(b, '\t');
    } else {
      NoCharWhenNotIncluded(line, '\t');
      NotIncludedInTrim(a, Dash);
      NotIncludedInTrim(b, Dash);
    }
    CharNotInTrim(a, '\t');
    CharNotInTrim(b, '\t');
    if '\n' !in line {
      CharNotInTrim(a, '\n');
      CharNotInTrim(b, '\n');
    }
    assert (a + sep + b)[0] == line[0];
    assert IsWhitespace(sep[0]);
    assert a[0] == line[0];
    assert !AllWhitespace(a);
  }

  /** Any pair of fields that sits in the line as `AreFirstTwoFields`
      describes, for the separator the line is split on, gives the entry of
      the line: the fields, trimmed. */
  lemma ParseLineFields(line: string, p: (string, string))
    requires line != [] && !IsWhitespace(line[0])
    requires AreFirstTwoFields(line, if Includes(line, Tab) then Tab else Dash, p)
    ensures ParseLine(line) == Some(Entry(Trim(p.0), Trim(p.1)))
  {
    var sep := if Includes(line, Tab) then Tab else Dash;
    OccursAfterPrefix(line, sep, p.0, p.1);
    OccurrenceIncluded(line, sep, |p.0|);
    FirstTwoFieldsUnique(line, sep, p);
  }

  /** A line split on tabs: the first two fields become term and meaning,
      and whatever follows a second tab (a third field and beyond) is
      dropped. A " - " anywhere in the line does not matter. */
  lemma ParseTabLine(a: string, b: string, t: string)
    requires a != [] && !IsWhitespace(a[0])
    requires '\t' !in a && '\t' !in b && (t == [] || Tab <= t)
    ensures ParseLine(a + Tab + b + t) == Some(Entry(Trim(a), Trim(b)))
  {
    var line := a + Tab + b + t;
    forall k | 0 <= k < |a| ensures !OccursAt(line, Tab, k) {
      assert line[k..k + 1] == [a[k]];
    }
    forall k | |a| + 1 <= k < |a| + 1 + |b| ensures !OccursAt(line, Tab, k) {
      assert line[k..k + 1] == [b[k - |a| - 1]];
    }
    FirstTwoFieldsOf(line, Tab, a, b, t);
    assert line[0] == a[0];
    ParseLineFields(line, (a, b));
  }

  /** A line without a tab is split on " - ": `a` and `b` become term and
      meaning when " - " occurs in neither and `a` does not end in " -"
      (which would form an earlier " - " with the separator's space). */
  lemma ParseDashLine(a: string, b: string)
    requires a != [] && !IsWhitespace(a[0])
    requires '\t' !in a && '\t' !in b
    requires !Includes(a + " ", Dash) && !Includes(b, Dash)
    ensures ParseLine(a + Dash + b) == Some(Entry(Trim(a), Trim(b)))
  {
    var line := a + Dash + b;
    NoTabInDashLine(a, b);
    DashOnlyAtSeparator(a, b);
    FirstTwoFieldsOf(line, Dash, a, b, []);
    assert line[0] == a[0];
    ParseLineFields(line, (a, b));
  }

  /** "a - - b" splits at its first " - ": the term is "a" and the meaning
      "- b". */
  lemma ParseDashExample()
    ensures ParseLine("a - - b") == Some(Entry("a", "- b"))
  {
    assert "a" + Dash + "- b" == "a - - b" by {
      assert |"a" + Dash + "- b"| == 7;
    }
    TrimOfTrimmed("a");
    TrimOfTrimmed("- b");
    NoDashInExample();
    ParseDashLine("a", "- b");
  }

  lemma NoDashInExample()
    ensures !Includes("a ", Dash) && !Includes("- b", Dash)
  {
    assert !OccursAt("a ", Dash, 0);
    assert !OccursAt("- b", Dash, 0) by {
      assert "- b"[0..3][0] != Dash[0];
    }
  }

  lemma NoTabInDashLine(a: string, b: string)
    requires '\t' !in a && '\t' !in b
    ensures !Includes(a + Dash + b, Tab)
  {
    assert '\t' !in a + Dash + b;
    NotInHasNoOccurrence(a + Dash + b, '\t');
  }

  lemma DashOnlyAtSeparator(a: string, b: string)
    requires !Includes(a + " ", Dash) && !Includes(b, Dash)
    ensures NoOccurrence(a + Dash + b, Dash, 0, |a|)
    ensures NoOccurrence(a + Dash + b, Dash, |a| + |Dash|, |a| + |Dash| + |b|)
  {
    var line := a + Dash + b;
    assert line[..|a| + 1] == a + " ";
    NoOccurrenceFromInfix(line, Dash, 0, a + " ");
    forall k | 0 <= k < |a| ensures !OccursAt(line, Dash, k) {
      if k == |a| - 1 && k + 3 <= |line| {
        assert line[k..k + 3][1] == line[|a|] == ' ';
      }
    }
    assert line[|a| + 3..|a| + 3 + |b|] == b;
    NoOccurrenceFromInfix(line, Dash, |a| + 3, b);
  }

  lemma NoCharWhenNotIncluded(s: string, c: char)
    requires !Includes(s, [c])
    ensures c !in s
  {
    forall k | 0 <= k < |s| ensures s[k] != c {
      assert s[k..k + 1] == [s[k]];
      assert !OccursAt(s, [c], k);
    }
  }

  /** The lines of `text` run through the method chain of `parseText` short of
      the card records: trim, drop blank lines, split, drop lines without a
      separator. */
  function ParseLines(lines: seq<string>): (r: seq<Entry>)
    ensures |r| <= |lines|
    ensures forall e :: e in r ==> WellFormed(e)
  {
    if lines == [] then []
    else
      var line := Trim(lines[0]);
      var rest := ParseLines(lines[1..]);
      if line == [] then rest
      else
        var parsed := ParseLine(line);
        if parsed.Some? then [parsed.value] + rest else rest
  }

  /** Whether a raw line yields an entry: it is not blank and, trimmed, it
      has a separator. */
  predicate Kept(line: string)
  {
    Trim(line) != [] && HasSeparator(Trim(line))
  }

  /** The kept lines, trimmed, in order. */
  function KeptLines(lines: seq<string>): (r: seq<string>)
    ensures |r| <= |lines|
    ensures forall k :: 0 <= k < |r| ==> r[k] != [] && IsTrimmed(r[k]) && HasSeparator(r[k])
  {
    if lines == [] then []
    else if Kept(lines[0]) then [Trim(lines[0])] + KeptLines(lines[1..])
    else KeptLines(lines[1..])
  }

  /** Every kept line, trimmed, is among the kept lines, and nothing else
      is. */
  lemma {:induction false} KeptLinesMembers(lines: seq<string>)
    ensures forall k :: 0 <= k < |lines| && Kept(lines[k]) ==> Trim(lines[k]) in KeptLines(lines)
    ensures forall line :: line in KeptLines(lines) ==>
      exists k :: 0 <= k < |lines| && Kept(lines[k]) && Trim(lines[k]) == line
  {
    if lines != [] {
      KeptLinesMembers(lines[1..]);
      var rest := KeptLines(lines[1..]);
      assert KeptLines(lines) == (if Kept(lines[0]) then [Trim(lines[0])] else []) + rest;
      forall k | 1 <= k < |lines| && Kept(lines[k]) ensures Trim(lines[k]) in KeptLines(lines) {
        assert lines[1..][k - 1] == lines[k];
      }
      forall line | line in KeptLines(lines)
        ensures exists k :: 0 <= k < |lines| && Kept(lines[k]) && Trim(lines[k]) == line
      {
        if line !in rest {
          assert Kept(lines[0]) && Trim(lines[0]) == line;
        } else {
          var j :| 0 <= j < |lines[1..]| && Kept(lines[1..][j]) && Trim(lines[1..][j]) == line;
          assert lines[j + 1] == lines[1..][j];
        }
      }
    }
  }

  /** `parseText` yields exactly one entry per kept line, in line order:
      blank lines and lines with neither separator produce nothing. */
  lemma ParseLinesPositional(lines: seq<string>)
    ensures |ParseLines(lines)| == |KeptLines(lines)|
    ensures forall k :: 0 <= k < |ParseLines(lines)| ==> Some(ParseLines(lines)[k]) == ParseLine(KeptLines(lines)[k])
  {
    ParseLinesAsKept(lines);
    forall k | 0 <= k < |ParseLines(lines)| ensures Some(ParseLines(lines)[k]) == ParseLine(KeptLines(lines)[k]) {
      ParseKeptAt(KeptLines(lines), k);
    }
  }

  /** Kept lines parsed one by one; each has a separator, so each yields an
      entry. */
  function ParseKept(kept: seq<string>): (r: seq<Entry>)
    requires forall k :: 0 <= k < |kept| ==> kept[k] != [] && IsTrimmed(kept[k]) && HasSeparator(kept[k])
    ensures |r| == |kept|
  {
    if kept == [] then []
    else
      assert IsTrimmed(kept[0]);
      [ParseLine(kept[0]).value] + ParseKept(kept[1..])
  }

  lemma {:induction false} ParseKeptAt(kept: seq<string>, k: nat)
    requires forall k :: 0 <= k < |kept| ==> kept[k] != [] && IsTrimmed(kept[k]) && HasSeparator(kept[k])
    requires k < |kept|
    ensures Some(ParseKept(kept)[k]) == ParseLine(kept[k])
  {
    if k > 0 {
      ParseKeptAt(kept[1..], k - 1);
    }
  }

  /** `ParseLines` is the trim-and-filter stage followed by parsing each kept
      line. */
  lemma {:induction false} ParseLinesAsKept(lines: seq<string>)
    ensures ParseLines(lines) == ParseKept(KeptLines(lines))
  {
    if lines != [] {
      ParseLinesStep(lines);
      ParseLinesAsKept(lines[1..]);
      if Kept(lines[0]) {
        assert KeptLines(lines) == [Trim(lines[0])] + KeptLines(lines[1..]);
      } else {
        assert KeptLines(lines) == KeptLines(lines[1..]);
      }
    }
  }

  /** One step of `ParseLines`, in terms of `Kept`. */
  lemma ParseLinesStep(lines: seq<string>)
    requires lines != []
    ensures Kept(lines[0]) ==> ParseLines(lines) == [ParseLine(Trim(lines[0])).value] + ParseLines(lines[1..])
    ensures !Kept(lines[0]) ==> ParseLines(lines) == ParseLines(lines[1..])
  {
  }

  /** The entries of a whole text. */
  function ParseEntries(text: string): (r: seq<Entry>)
    ensures forall e :: e in r ==> WellFormed(e)
  {
    ParseLines(Lines(text))
  }

  /** The cards made of parsed entries, the `k`-th getting `freshId(k)`:
      one card per entry, in order, each new (level 0) and due at once. */
  function NewCards(es: seq<Entry>, now: int, freshId: nat -> CardId): (r: seq<Card>)
    ensures |r| == |es|
    ensures forall k :: 0 <= k < |r| ==> r[k].term == es[k].term && r[k].meaning == es[k].meaning
    ensures forall k :: 0 <= k < |r| ==> r[k].id == freshId(k)
    ensures forall k :: 0 <= k < |r| ==> r[k].level == 0 && r[k].due == now
    ensures LevelsInRange(r)
  {
    seq(|es|, k requires 0 <= k < |es| => Card(freshId(k), es[k].term, es[k].meaning, 0, now))
  }

  /** `parseText(text)` read at time `now`, where `freshId(k)` stands for the
      random id drawn for the `k`-th card. */
  function ParseText(text: string, now: int, freshId: nat -> CardId): (r: seq<Card>)
    ensures LevelsInRange(r)
  {
    NewCards(ParseEntries(text), now, freshId)
  }

  /** The line "term<TAB>meaning" that a card's text would be written as. */
  function FormatLine(e: Entry): string
  {
    e.term + Tab + e.meaning
  }

  /** An entry that survives being written as a line and parsed again: both
      fields non-empty, already trimmed, and free of tabs and line breaks. */
  predicate Clean(e: Entry)
  {
    e.term != [] && e.meaning != []
    && IsTrimmed(e.term) && IsTrimmed(e.meaning)
    && '\t' !in e.term && '\t' !in e.meaning
    && '\n' !in e.term && '\n' !in e.meaning
  }

  /** A clean entry written as one line parses back to itself. */
  lemma ParseFormatLine(e: Entry)
    requires Clean(e)
    ensures Trim(FormatLine(e)) == FormatLine(e)
    ensures ParseLine(FormatLine(e)) == Some(e)
  {
    var line := FormatLine(e);
    assert line[0] == e.term[0];
    assert line[|line| - 1] == e.meaning[|e.meaning| - 1];
    TrimOfTrimmed(line);
    FirstTwoFieldsOfJoined(e.term, '\t', e.meaning);
  }

  /** Entries written one per line. */
  function FormatLines(es: seq<Entry>): (lines: seq<string>)
    ensures |lines| == |es|
  {
    if es == [] then [] else [FormatLine(es[0])] + FormatLines(es[1..])
  }

  /** Clean entries written one per line parse back to the same entries, in
      the same order. */
  lemma {:induction false} ParseFormatLines(es: seq<Entry>)
    requires forall e :: e in es ==> Clean(e)
    ensures ParseLines(FormatLines(es)) == es
  {
    if es != [] {
      ParseFormattedHead(es);
      ParseFormatLines(es[1..]);
    }
  }

  lemma ParseFormattedHead(es: seq<Entry>)
    requires es != [] && Clean(es[0])
    ensures ParseLines(FormatLines(es)) == [es[0]] + ParseLines(FormatLines(es[1..]))
  {
    var lines := FormatLines(es);
    assert lines[0] == FormatLine(es[0]) && lines[1..] == FormatLines(es[1..]);
    ParseFormatLine(es[0]);
  }

  /** The text made of clean entries, one "term<TAB>meaning" per line,
      parses back to exactly those entries: parsing loses nothing of what
      it produces. */
  lemma ParseFormattedText(es: seq<Entry>)
    requires es != []
    requires forall e :: e in es ==> Clean(e)
    ensures ParseEntries(JoinWith(FormatLines(es), '\n')) == es
  {
    var lines := FormatLines(es);
    FormatLinesShape(es);
    LinesOfJoined(lines);
    ParseFormatLines(es);
  }

  lemma {:induction false} FormatLinesShape(es: seq<Entry>)
    requires forall e :: e in es ==> Clean(e)
    ensures forall line :: line in FormatLines(es) ==> '\n' !in line && line != [] && line[|line| - 1] != '\r'
  {
    if es != [] {
      FormatLinesShape(es[1..]);
      var e := es[0];
      assert Clean(e);
      var line := FormatLine(e);
      assert line[|line| - 1] == e.meaning[|e.meaning| - 1];
      assert '\n' !in line by {
        forall k | 0 <= k < |line| ensures line[k] != '\n' {
          if k < |e.term| { assert line[k] == e.term[k]; }
          else if k > |e.term| { assert line[k] == e.meaning[k - |e.term| - 1]; }
        }
      }
    }
  }
}
