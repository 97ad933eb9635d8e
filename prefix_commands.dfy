/**
 * The prefix-command bot: one process-wide dict of assignments, kept in
 * memory, with the commands `add_assignment`, `show_assignments` and
 * `remove_assignment`. Each command returns the text it sends to the channel.
 */
module PrefixCommands {
  import opened Wrappers
  import opened PyDict
  import opened Text

  /** A `datetime` as `strptime("%Y-%m-%d %H:%M")` produces it: seconds and microseconds are 0. */
  datatype DateTime = DateTime(year: nat, month: nat, day: nat, hour: nat, minute: nat)

  /** The field ranges `datetime` enforces. */
  predicate ValidDateTime(dt: DateTime) {
    1 <= dt.year <= 9999 && 1 <= dt.month <= 12 && 1 <= dt.day <= 31 && dt.hour < 24 && dt.minute < 60
  }

  /** `str(dt)`: `YYYY-MM-DD HH:MM:SS`, zero-padded, seconds always `00` here. */
  function DateTimeText(dt: DateTime): (s: string) {
    ZeroPadded(dt.year, 4) + "-" + ZeroPadded(dt.month, 2) + "-" + ZeroPadded(dt.day, 2) + " "
      + ZeroPadded(dt.hour, 2) + ":" + ZeroPadded(dt.minute, 2) + ":00"
  }

  /** Reads `YYYY-MM-DD HH:MM:00` back into its fields. */
  function ParseDateTimeText(s: string): (r: Option<DateTime>) {
    if && |s| == 19 && s[4] == '-' && s[7] == '-' && s[10] == ' ' && s[13] == ':' && s[16..] == ":00"
       && AllDigits(s[..4]) && AllDigits(s[5..7]) && AllDigits(s[8..10])
       && AllDigits(s[11..13]) && AllDigits(s[14..16])
    then Some(DateTime(DigitsValue(s[..4]), DigitsValue(s[5..7]), DigitsValue(s[8..10]),
                       DigitsValue(s[11..13]), DigitsValue(s[14..16])))
    else None
  }

  /** The deadline shown is exactly 19 characters, has no line break, and gives back the stored fields. */
  lemma DateTimeTextRoundTrip(dt: DateTime)
    requires ValidDateTime(dt)
    ensures var s := DateTimeText(dt);
      |s| == 19 && '\n' !in s && ParseDateTimeText(s) == Some(dt)
  {
    assert Pow10(2) == 100 && Pow10(4) == 10000;
    var y, mo, d := ZeroPadded(dt.year, 4), ZeroPadded(dt.month, 2), ZeroPadded(dt.day, 2);
    var h, mi := ZeroPadded(dt.hour, 2), ZeroPadded(dt.minute, 2);
    TextLayout(y, mo, d, h, mi);
    DigitsHaveNoBreak(y);
    DigitsHaveNoBreak(mo);
    DigitsHaveNoBreak(d);
    DigitsHaveNoBreak(h);
    DigitsHaveNoBreak(mi);
  }

  /** Where the fields sit in `YYYY-MM-DD HH:MM:00`. */
  lemma TextLayout(y: string, mo: string, d: string, h: string, mi: string)
    requires |y| == 4 && |mo| == 2 && |d| == 2 && |h| == 2 && |mi| == 2
    ensures var s := y + "-" + mo + "-" + d + " " + h + ":" + mi + ":00";
      && |s| == 19 && s[..4] == y && s[5..7] == mo && s[8..10] == d && s[11..13] == h && s[14..16] == mi
      && s[4] == '-' && s[7] == '-' && s[10] == ' ' && s[13] == ':' && s[16..] == ":00"
  {
    var t4 := ":" + mi + ":00";
    var t3 := " " + h + t4;
    var t2 := "-" + d + t3;
    var t1 := "-" + mo + t2;
    var s := y + "-" + mo + "-" + d + " " + h + ":" + mi + ":00";
    assert s == y + t1;
    assert t4[0] == ':' && t4[1..3] == mi && t4[3..] == ":00";
    assert t3[0] == ' ' && t3[1..3] == h && t3[3..] == t4;
    assert t2[0] == '-' && t2[1..3] == d && t2[3..] == t3;
    assert t1[0] == '-' && t1[1..3] == mo && t1[3..] == t2;
    assert s[..4] == y && s[4..] == t1;
  }

  lemma DigitsHaveNoBreak(s: string)
    requires AllDigits(s)
    ensures '\n' !in s
  {
  }

  /** One assignment: its deadline and the details text. */
  datatype Entry = Entry(deadline: DateTime, details: string)

  /** A command either sends a message or ends with the `ValueError` from `strptime`. */
  datatype Outcome = Sent(message: string) | RaisedValueError

  const ShowHeader: string := "Here are your assignments:"

  /** The line `show_assignments` writes for one entry, without its line break. */
  function EntryLine(item: (string, Entry)): (line: string) {
    "**" + item.0 + "** - Deadline: " + DateTimeText(item.1.deadline) + " | Details: " + item.1.details
  }

  /** The entries' lines in iteration order. */
  function EntryLines(d: Dict<string, Entry>): (lines: seq<string>)
    ensures |lines| == |d|
  {
    if d == [] then [] else EntryLines(d[..|d| - 1]) + [EntryLine(d[|d| - 1])]
  }

  lemma {:induction false} EntryLinesAt(d: Dict<string, Entry>, k: nat)
    requires k < |d|
    ensures EntryLines(d)[k] == EntryLine(d[k])
  {
    if k < |d| - 1 {
      EntryLinesAt(d[..|d| - 1], k);
    }
  }

  /** Each line followed by a line break, in order. */
  function Terminated(lines: seq<string>): (s: string) {
    if lines == [] then "" else Terminated(lines[..|lines| - 1]) + lines[|lines| - 1] + "\n"
  }

  /** The response `show_assignments` builds for a non-empty dict. */
  function ShowText(d: Dict<string, Entry>): (s: string) {
    ShowHeader + "\n" + Terminated(EntryLines(d))
  }

  /** A header and break-terminated lines are the lines joined at breaks, with an empty rest after the last break. */
  lemma {:induction false} TerminatedIsJoin(header: string, lines: seq<string>)
    ensures header + "\n" + Terminated(lines) == JoinWith([header] + lines + [""], '\n')
  {
    if lines == [] {
      JoinWithSnoc([header], "", '\n');
      assert [header] + lines == [header];
    } else {
      var init, line := lines[..|lines| - 1], lines[|lines| - 1];
      var before := [header] + init;
      TerminatedIsJoin(header, init);
      assert [header] + lines == before + [line];
      JoinWithSnoc(before, "", '\n');
      JoinWithSnoc(before, line, '\n');
      JoinWithSnoc(before + [line], "", '\n');
      calc {
        header + "\n" + Terminated(lines);
        header + "\n" + (Terminated(init) + line + "\n");
        (header + "\n" + Terminated(init)) + line + "\n";
        JoinWith(before + [""], '\n') + line + "\n";
        JoinWith(before, '\n') + "\n" + line + "\n";
        JoinWith(before + [line], '\n') + "\n";
        JoinWith(before + [line] + [""], '\n');
      }
    }
  }

  lemma TerminatedSnoc(lines: seq<string>, line: string)
    ensures Terminated(lines + [line]) == Terminated(lines) + line + "\n"
  {
    assert (lines + [line])[..|lines|] == lines;
  }

  lemma EntryLinesSnoc(d: Dict<string, Entry>, i: nat)
    requires i < |d|
    ensures EntryLines(d[..i + 1]) == EntryLines(d[..i]) + [EntryLine(d[i])]
  {
    assert d[..i + 1][..i] == d[..i];
  }

  /** One more entry adds its line and a break at the end of the response. */
  lemma ShowTextSnoc(d: Dict<string, Entry>, i: nat)
    requires i < |d|
    ensures ShowText(d[..i + 1]) == ShowText(d[..i]) + EntryLine(d[i]) + "\n"
  {
    EntryLinesSnoc(d, i);
    TerminatedSnoc(EntryLines(d[..i]), EntryLine(d[i]));
    Associate(ShowHeader + "\n", Terminated(EntryLines(d[..i])), EntryLine(d[i]));
  }

  lemma Associate(h: string, t: string, l: string)
    ensures h + t + l + "\n" == h + (t + l + "\n")
  {
  }

  /** An entry's line holds no line break when its name and details hold none. */
  lemma EntryLineHasNoBreak(item: (string, Entry))
    requires '\n' !in item.0 && '\n' !in item.1.details && ValidDateTime(item.1.deadline)
    ensures '\n' !in EntryLine(item)
  {
    DateTimeTextRoundTrip(item.1.deadline);
  }

  /**
   * When no name or details text holds a line break, splitting the response
   * at line breaks gives back the header, then exactly one line per entry in
   * iteration order, then the empty rest after the final break.
   */
  lemma ShowLines(d: Dict<string, Entry>)
    requires forall i :: 0 <= i < |d| ==> '\n' !in d[i].0 && '\n' !in d[i].1.details && ValidDateTime(d[i].1.deadline)
    ensures Split(ShowText(d), '\n') == [ShowHeader] + EntryLines(d) + [""]
  {
    PartsHaveNoBreak(d);
    TerminatedIsJoin(ShowHeader, EntryLines(d));
    SplitJoinRoundTrip([ShowHeader] + EntryLines(d) + [""], '\n');
  }

  lemma PartsHaveNoBreak(d: Dict<string, Entry>)
    requires forall i :: 0 <= i < |d| ==> '\n' !in d[i].0 && '\n' !in d[i].1.details && ValidDateTime(d[i].1.deadline)
    ensures forall p :: p in [ShowHeader] + EntryLines(d) + [""] ==> '\n' !in p
  {
    var lines := EntryLines(d);
    forall k | 0 <= k < |lines| ensures '\n' !in lines[k] {
      LineAtHasNoBreak(d, k);
    }
    HeaderHasNoBreak();
    FramedHaveNoBreak(ShowHeader, lines);
  }

  lemma HeaderHasNoBreak()
    ensures '\n' !in ShowHeader
  {
  }

  lemma LineAtHasNoBreak(d: Dict<string, Entry>, k: nat)
    requires k < |d| && '\n' !in d[k].0 && '\n' !in d[k].1.details && ValidDateTime(d[k].1.deadline)
    ensures '\n' !in EntryLines(d)[k]
  {
    EntryLinesAt(d, k);
    EntryLineHasNoBreak(d[k]);
  }

  lemma FramedHaveNoBreak(header: string, lines: seq<string>)
    requires '\n' !in header
    requires forall k :: 0 <= k < |lines| ==> '\n' !in lines[k]
    ensures forall p :: p in [header] + lines + [""] ==> '\n' !in p
  {
    forall p | p in [header] + lines + [""] ensures '\n' !in p {
      if p in lines {
        var k :| 0 <= k < |lines| && lines[k] == p;
      }
    }
  }

  /**
   * `" ".join(details)`: no tokens give "", and splitting the result at
   * spaces gives back the tokens when none of them holds a space.
   */
  lemma JoinedDetails(tokens: seq<string>)
    ensures tokens == [] ==> JoinWith(tokens, ' ') == ""
    ensures |tokens| >= 1 && (forall t :: t in tokens ==> ' ' !in t) ==> Split(JoinWith(tokens, ' '), ' ') == tokens
  {
    if |tokens| >= 1 && (forall t :: t in tokens ==> ' ' !in t) {
      SplitJoinRoundTrip(tokens, ' ');
    }
  }

  class AssignmentBoard {
    /** The module-level `assignments` dict. */
    var assignments: Dict<string, Entry>

    ghost predicate Valid()
      reads this
    {
      UniqueKeys(assignments)
    }

    constructor ()
      ensures Valid() && assignments == []
    {
      assignments := [];
    }

    /**
     * `add_assignment`: a deadline that fails to parse raises before the dict
     * is touched; otherwise the entry is set (an existing name keeps its
     * place, a new one goes last) and a confirmation is sent.
     */
    method AddAssignment(name: string, deadline: string, details: seq<string>, parse: string -> Option<DateTime>)
      returns (outcome: Outcome)
      requires Valid()
      modifies this
      ensures Valid()
      ensures parse(deadline).None? ==> outcome == RaisedValueError && assignments == old(assignments)
      ensures parse(deadline).Some? ==>
        var dt, text := parse(deadline).value, JoinWith(details, ' ');
        && assignments == Set(old(assignments), name, Entry(dt, text))
        && outcome == Sent("Assignment '" + name + "' added with a deadline on " + DateTimeText(dt) + ".\nDetails: " + text)
    {
      var parsed := parse(deadline);
      if parsed.None? {
        return RaisedValueError;
      }
      var text := JoinWith(details, ' ');
      assignments := Set(assignments, name, Entry(parsed.value, text));
      outcome := Sent("Assignment '" + name + "' added with a deadline on " + DateTimeText(parsed.value) + ".\nDetails: " + text);
    }

    /** `show_assignments`: the fixed notice for an empty dict, otherwise one line per entry after a header. */
    method ShowAssignments() returns (message: string)
      requires Valid()
      ensures assignments == [] ==> message == "No assignments added yet."
      ensures assignments != [] ==> message == ShowText(assignments)
    {
      if assignments == [] {
        return "No assignments added yet.";
      }
      var response := ShowHeader + "\n";
      var i := 0;
      while i < |assignments|
        invariant 0 <= i <= |assignments|
        invariant response == ShowText(assignments[..i])
      {
        ShowTextSnoc(assignments, i);
        response := response + EntryLine(assignments[i]) + "\n";
        i := i + 1;
      }
      assert assignments[..i] == assignments;
      message := response;
    }

    /** `remove_assignment`: deletes a present name; an absent one changes nothing. */
    method RemoveAssignment(name: string) returns (message: string)
      requires Valid()
      modifies this
      ensures Valid()
      ensures name in Keys(old(assignments)) ==>
        assignments == Delete(old(assignments), name) && message == "Assignment '" + name + "' has been removed."
      ensures name !in Keys(old(assignments)) ==>
        assignments == old(assignments) && message == "Assignment '" + name + "' not found."
    {
      if name in Keys(assignments) {
        assignments := Delete(assignments, name);
        message := "Assignment '" + name + "' has been removed.";
      } else {
        message := "Assignment '" + name + "' not found.";
      }
    }
  }
}
