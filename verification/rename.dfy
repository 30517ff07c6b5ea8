/**
 * The one-off renaming script: files named after the pattern
 * `Bon Ã  Savoir_(\d{2})_(\d{4}).pdf` are renamed `bon_a_savoir_{year}_{month}.pdf`;
 * every other file is skipped. The directory listing is a sequence of entries.
 */
module Rename {
  import opened Wrappers

  /**
   * The literal head of the pattern, as the script's source holds it: "Bon ", a capital
   * A with tilde, a no-break space, " Savoir_" (the UTF-8 bytes of "à" read as Latin-1).
   */
  const OldPrefix: string := "Bon \U{C3}\U{A0} Savoir_"

  const NewPrefix: string := "bon_a_savoir_"

  /** `\d`, restricted to the ASCII digits. */
  predicate IsDigit(c: char) {
    '0' <= c <= '9'
  }

  predicate AllDigits(s: string) {
    forall i :: 0 <= i < |s| ==> IsDigit(s[i])
  }

  /**
   * `pattern.match(name)`, giving the month and year groups. `re.match` anchors only at
   * the start, so anything may follow "pdf"; the unescaped `.` matches any character
   * except a newline.
   */
  function MatchName(name: string): (m: Option<(string, string)>)
    ensures m.Some? ==> |m.value.0| == 2 && AllDigits(m.value.0)
    ensures m.Some? ==> |m.value.1| == 4 && AllDigits(m.value.1)
    ensures m.Some? ==> |name| >= 25 && name[..14] == OldPrefix
  {
    if && |name| >= 25
       && name[..14] == OldPrefix
       && AllDigits(name[14..16]) && name[16] == '_' && AllDigits(name[17..21])
       && name[21] != '\n' && name[22..25] == "pdf"
    then Some((name[14..16], name[17..21]))
    else None
  }

  /** Every name the pattern accepts, spelt out piece by piece. */
  function OldName(month: string, year: string, dot: char, tail: string): string {
    OldPrefix + month + "_" + year + [dot] + "pdf" + tail
  }

  /** A name built the way the pattern describes is matched, and its groups come back unchanged. */
  lemma MatchOldName(month: string, year: string, dot: char, tail: string)
    requires |month| == 2 && AllDigits(month) && |year| == 4 && AllDigits(year) && dot != '\n'
    ensures MatchName(OldName(month, year, dot, tail)) == Some((month, year))
  {
    var n := OldName(month, year, dot, tail);
    assert n[..14] == OldPrefix;
    assert n[14..16] == month;
    assert n[16] == '_';
    assert n[17..21] == year;
    assert n[21] == dot;
    assert n[22..25] == "pdf";
  }

  /** Conversely, every matched name is one of those: the pattern accepts nothing else. */
  lemma MatchedNameIsOldName(name: string)
    requires MatchName(name).Some?
    ensures var (month, year) := MatchName(name).value;
      name == OldName(month, year, name[21], name[25..])
  {
    var (month, year) := MatchName(name).value;
    var n := OldName(month, year, name[21], name[25..]);
    assert |n| == |name|;
    forall i | 0 <= i < |name|
      ensures n[i] == name[i]
    {
      if i < 14 {
        assert n[i] == OldPrefix[i] == name[..14][i];
      }
    }
  }

  /** The pattern's quirks: any character but a newline stands in for the dot, and any text may follow. */
  lemma MatchAnyDot()
    ensures MatchName(OldPrefix + "03_2020xpdf") == Some(("03", "2020"))
  {
    MatchOldName("03", "2020", 'x', "");
    assert OldName("03", "2020", 'x', "") == OldPrefix + "03_2020xpdf";
  }

  /** `re.match` anchors only at the start: whatever follows the 25 characters the pattern reads is ignored. */
  lemma MatchIgnoresTail(name: string, tail: string)
    requires |name| >= 25
    ensures MatchName(name + tail) == MatchName(name)
  {
    var n := name + tail;
    assert n[..14] == name[..14] && n[14..16] == name[14..16] && n[17..21] == name[17..21];
    assert n[16] == name[16] && n[21] == name[21] && n[22..25] == name[22..25];
  }

  lemma NoMatchNewlineDot()
    ensures MatchName(OldPrefix + "03_2020\npdf").None?
  {
    assert (OldPrefix + "03_2020\npdf")[21] == '\n';
  }

  /** A name spelt with a real "à" is not matched: the pattern holds its mis-decoded bytes. */
  lemma NoMatchProperAccent()
    ensures MatchName("Bon \U{E0} Savoir_03_2020.pdf").None?
  {
    assert "Bon \U{E0} Savoir_03_2020.pdf"[4] != OldPrefix[4];
  }

  /** `f"bon_a_savoir_{year}_{month}.pdf"`: the year now comes first. */
  function NewName(month: string, year: string): (r: string)
    ensures |r| == |NewPrefix| + |year| + 1 + |month| + 4
    ensures r[..13] == NewPrefix && r[|r| - 4..] == ".pdf"
  {
    NewPrefix + year + "_" + month + ".pdf"
  }

  /** Every new name of a matched file has 24 characters. */
  lemma NewNameLength(name: string)
    requires MatchName(name).Some?
    ensures |NewName(MatchName(name).value.0, MatchName(name).value.1)| == 24
  {
  }

  /** The digits are kept verbatim, so distinct (month, year) pairs give distinct new names. */
  lemma NewNameInjective(m1: string, y1: string, m2: string, y2: string)
    requires |m1| == |m2| == 2 && |y1| == |y2| == 4
    requires NewName(m1, y1) == NewName(m2, y2)
    ensures m1 == m2 && y1 == y2
  {
    var n := NewName(m1, y1);
    assert n[13..17] == y1 && n[18..20] == m1;
    assert NewName(m2, y2)[13..17] == y2 && NewName(m2, y2)[18..20] == m2;
  }

  /** A renamed file no longer matches: its name starts with a lower-case "b". */
  lemma NewNameNeverMatches(month: string, year: string)
    ensures MatchName(NewName(month, year)).None?
  {
    var n := NewName(month, year);
    assert n[0] == 'b' && OldPrefix[0] == 'B';
    if |n| >= 25 {
      assert n[..14][0] != OldPrefix[0];
    }
  }

  /** One directory entry: its name and whether `is_file()` holds. */
  datatype Entry = Entry(name: string, isFile: bool)

  /** What the script reports for a file. */
  datatype Action = Renamed(from: string, to: string) | Skipped(name: string)

  function Source(a: Action): string {
    if a.Renamed? then a.from else a.name
  }

  /** The decision for one file. */
  function Decide(name: string): (a: Action)
    ensures Source(a) == name
    ensures a.Renamed? <==> MatchName(name).Some?
    ensures a.Renamed? ==> a.to == NewName(MatchName(name).value.0, MatchName(name).value.1)
  {
    match MatchName(name)
    case Some((month, year)) => Renamed(name, NewName(month, year))
    case None => Skipped(name)
  }

  /** The names of the entries that are regular files. */
  function FileNames(entries: seq<Entry>): set<string> {
    set i | 0 <= i < |entries| && entries[i].isFile :: entries[i].name
  }

  /** How many entries of the listing are regular files. */
  function FileCount(entries: seq<Entry>): (n: nat)
    ensures n <= |entries|
  {
    if |entries| == 0 then 0
    else (if entries[0].isFile then 1 else 0) + FileCount(entries[1..])
  }

  /** The loop over the directory: one action per regular file, in listing order. */
  function RenamePlan(entries: seq<Entry>): (plan: seq<Action>)
    ensures |plan| == FileCount(entries)
    ensures forall a :: a in plan ==> Source(a) in FileNames(entries) && a == Decide(Source(a))
    ensures forall i :: 0 <= i < |entries| && entries[i].isFile ==> Decide(entries[i].name) in plan
    decreases |entries|
  {
    if |entries| == 0 then []
    else
      var rest := RenamePlan(entries[1..]);
      assert forall i :: 1 <= i < |entries| ==> entries[1..][i - 1] == entries[i];
      assert FileNames(entries[1..]) <= FileNames(entries);
      if entries[0].isFile then [Decide(entries[0].name)] + rest else rest
  }

  /**
   * The plan follows the listing: the file at position `i` gets the action numbered by the
   * count of files listed before it.
   */
  lemma {:induction false} RenamePlanInOrder(entries: seq<Entry>, i: nat)
    requires i < |entries| && entries[i].isFile
    ensures FileCount(entries[..i]) < |RenamePlan(entries)|
    ensures RenamePlan(entries)[FileCount(entries[..i])] == Decide(entries[i].name)
    decreases i
  {
    var plan := RenamePlan(entries);
    if i > 0 {
      var tail, rest := entries[1..], RenamePlan(entries[1..]);
      RenamePlanInOrder(tail, i - 1);
      var k := FileCount(tail[..i - 1]);
      assert entries[..i][1..] == tail[..i - 1];
      if entries[0].isFile {
        assert FileCount(entries[..i]) == k + 1;
        assert plan == [Decide(entries[0].name)] + rest;
      } else {
        assert FileCount(entries[..i]) == k;
        assert plan == rest;
      }
    } else {
      assert entries[..i] == [];
      assert plan == [Decide(entries[0].name)] + RenamePlan(entries[1..]);
    }
  }

  /** The listing after the renames: matched files carry their new names. */
  function AfterRename(entries: seq<Entry>): (after: seq<Entry>)
    ensures |after| == |entries|
    ensures forall i :: 0 <= i < |entries| ==> after[i].isFile == entries[i].isFile
    ensures forall i :: 0 <= i < |entries| && entries[i].isFile && Decide(entries[i].name).Renamed? ==>
      after[i].name == Decide(entries[i].name).to
    ensures forall i :: 0 <= i < |entries| && !(entries[i].isFile && Decide(entries[i].name).Renamed?) ==>
      after[i] == entries[i]
  {
    seq(|entries|, i requires 0 <= i < |entries| =>
      var e := entries[i];
      if e.isFile && MatchName(e.name).Some?
      then Entry(NewName(MatchName(e.name).value.0, MatchName(e.name).value.1), true)
      else e)
  }

  /** Running the script a second time renames nothing: every file is now skipped. */
  lemma SecondRunRenamesNothing(entries: seq<Entry>)
    ensures forall a :: a in RenamePlan(AfterRename(entries)) ==> a.Skipped?
  {
    var after := AfterRename(entries);
    forall a | a in RenamePlan(after)
      ensures a.Skipped?
    {
      var i :| 0 <= i < |after| && after[i].isFile && after[i].name == Source(a);
      var e := entries[i];
      if e.isFile && MatchName(e.name).Some? {
        NewNameNeverMatches(MatchName(e.name).value.0, MatchName(e.name).value.1);
      }
    }
  }
}
