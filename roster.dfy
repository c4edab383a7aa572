/** The two list comprehensions of the ledger: parsing the roster text area
    into names (app.py line 125) and filtering a roster against the names
    that have already won (app.py line 198). */
module Roster {
  import opened Text
  import opened Seqs

  /** `[name.strip() for name in lines if name.strip()]`. */
  function Names(lines: seq<string>): (names: seq<string>)
    ensures |names| <= |lines|
    ensures forall k :: 0 <= k < |names| ==> names[k] != [] && IsStripped(names[k])
  {
    if lines == [] then []
    else
      var name := Strip(lines[0]);
      var rest := Names(lines[1..]);
      if name == [] then rest
      else
        CleanCons(name, rest);
        [name] + rest
  }

  /** Putting a clean name in front of clean names gives clean names. */
  lemma CleanCons(name: string, rest: seq<string>)
    requires name != [] && IsStripped(name)
    requires forall k :: 0 <= k < |rest| ==> rest[k] != [] && IsStripped(rest[k])
    ensures forall k :: 0 <= k < |[name] + rest| ==> ([name] + rest)[k] != [] && IsStripped(([name] + rest)[k])
  {
    forall k | 0 <= k < |[name] + rest|
      ensures ([name] + rest)[k] != [] && IsStripped(([name] + rest)[k])
    {
      if k > 0 {
        assert ([name] + rest)[k] == rest[k - 1];
      }
    }
  }

  /** The participants typed into the roster text area, one per line:
      `[name.strip() for name in text.split('\n') if name.strip()]`. */
  function ParseRoster(text: string): seq<string> {
    Names(Split(text))
  }

  /** Stripping a newline-free line leaves it newline-free. */
  lemma StripNewlineFree(line: string)
    requires '\n' !in line
    ensures '\n' !in Strip(line)
  {
    var i := |line| - |StripLeft(line)|;
    StripIsTrim(line);
    assert Strip(line) == line[i..i + |Strip(line)|];
  }

  lemma {:induction false} NamesNewlineFree(lines: seq<string>)
    requires forall k :: 0 <= k < |lines| ==> '\n' !in lines[k]
    ensures forall k :: 0 <= k < |Names(lines)| ==> '\n' !in Names(lines)[k]
  {
    if lines != [] {
      StripNewlineFree(lines[0]);
      NamesNewlineFree(lines[1..]);
      var name, rest := Strip(lines[0]), Names(lines[1..]);
      if name != [] {
        forall k | 0 <= k < |[name] + rest| ensures '\n' !in ([name] + rest)[k] {
          if k > 0 {
            assert ([name] + rest)[k] == rest[k - 1];
          }
        }
      }
    }
  }

  /** Every parsed name is a non-empty, stripped piece of one line. */
  lemma ParsedNamesAreClean(text: string)
    ensures forall k :: 0 <= k < |ParseRoster(text)| ==>
              var name := ParseRoster(text)[k];
              name != [] && IsStripped(name) && '\n' !in name
  {
    NamesNewlineFree(Split(text));
  }

  /** Names of clean lines are the lines themselves, duplicates included. */
  lemma {:induction false} NamesOfCleanLines(names: seq<string>)
    requires forall k :: 0 <= k < |names| ==> names[k] != [] && IsStripped(names[k])
    ensures Names(names) == names
  {
    if names != [] {
      var n := names[0];
      assert n[0..0 + |n|] == n && AllSpace(n[..0]) && AllSpace(n[0 + |n|..]);
      StripUnique(n, n, 0);
      NamesOfCleanLines(names[1..]);
      assert names == [n] + names[1..];
    }
  }

  /** Round trip: writing clean names one per line and parsing the text gives
      back exactly those names, in order and with duplicates kept. */
  lemma ParseRosterJoin(names: seq<string>)
    requires forall k :: 0 <= k < |names| ==> names[k] != [] && IsStripped(names[k]) && '\n' !in names[k]
    ensures ParseRoster(Join(names)) == names
  {
    if names != [] {
      SplitJoin(names);
      NamesOfCleanLines(names);
    }
  }

  lemma {:induction false} JoinAppend(a: seq<string>, b: seq<string>)
    requires a != [] && b != []
    ensures Join(a + b) == Join(a) + "\n" + Join(b)
  {
    if |a| > 1 {
      assert (a + b)[1..] == a[1..] + b;
      JoinAppend(a[1..], b);
    } else {
      assert (a + b)[1..] == b;
    }
  }

  /** Splitting two texts joined by a newline splits each of them. */
  lemma SplitAppend(a: string, b: string)
    ensures Split(a + "\n" + b) == Split(a) + Split(b)
  {
    var parts := Split(a) + Split(b);
    JoinAppend(Split(a), Split(b));
    assert forall k :: 0 <= k < |parts| ==> '\n' !in parts[k] by {
      forall k | 0 <= k < |parts| ensures '\n' !in parts[k] {
        if k >= |Split(a)| { assert parts[k] == Split(b)[k - |Split(a)|]; }
      }
    }
    SplitJoin(parts);
  }

  lemma {:induction false} NamesAppend(a: seq<string>, b: seq<string>)
    ensures Names(a + b) == Names(a) + Names(b)
  {
    if a == [] {
      assert a + b == b;
    } else {
      assert (a + b)[0] == a[0] && (a + b)[1..] == a[1..] + b;
      NamesAppend(a[1..], b);
    }
  }

  /** Parsing is line by line: the roster of two blocks of lines is the roster
      of the first block followed by the roster of the second. */
  lemma ParseRosterAppend(a: string, b: string)
    ensures ParseRoster(a + "\n" + b) == ParseRoster(a) + ParseRoster(b)
  {
    SplitAppend(a, b);
    NamesAppend(Split(a), Split(b));
  }

  /** A line holding only whitespace contributes no participant. */
  lemma BlankLineParsesToNothing(blank: string)
    requires AllSpace(blank) && '\n' !in blank
    ensures ParseRoster(blank) == []
  {
    SplitJoin([blank]);
    var empty: string := [];
    assert blank[0..0 + |empty|] == empty && AllSpace(blank[..0]) && AllSpace(blank[0 + |empty|..]);
    StripUnique(blank, empty, 0);
  }

  /** Blank lines are dropped wherever they stand. */
  lemma BlankLineIgnored(blank: string, rest: string)
    requires AllSpace(blank) && '\n' !in blank
    ensures ParseRoster(blank + "\n" + rest) == ParseRoster(rest)
  {
    ParseRosterAppend(blank, rest);
    BlankLineParsesToNothing(blank);
  }

  /** One line of the text area yields its stripped text as one participant,
      or nothing when the stripped text is empty. With `ParseRosterAppend`
      this says the roster is exactly the stripped non-empty lines, in order. */
  lemma ParseRosterLine(line: string)
    requires '\n' !in line
    ensures ParseRoster(line) == if Strip(line) != [] then [Strip(line)] else []
  {
    SplitJoin([line]);
  }

  /** `[p for p in roster if p not in winners]`: the roster entries whose
      name has not won yet, in roster order. Every entry carrying a winner's
      name is dropped, however many there are; every other entry is kept. */
  function Candidates(roster: seq<string>, winners: set<string>): (c: seq<string>)
    ensures IsSubsequence(c, roster)
    ensures forall n :: multiset(c)[n] == if n in winners then 0 else multiset(roster)[n]
    ensures forall k :: 0 <= k < |c| ==> c[k] !in winners
  {
    if roster == [] then []
    else
      var init, last := roster[..|roster| - 1], roster[|roster| - 1];
      var rest := Candidates(init, winners);
      assert roster == init + [last];
      if last in winners then
        rest
      else
        assert (rest + [last])[..|rest|] == rest;
        rest + [last]
  }

  /** Without any winner yet the whole roster is eligible. */
  lemma {:induction false} CandidatesWithoutWinners(roster: seq<string>)
    ensures Candidates(roster, {}) == roster
  {
    if roster != [] {
      CandidatesWithoutWinners(roster[..|roster| - 1]);
      assert roster == roster[..|roster| - 1] + [roster[|roster| - 1]];
    }
  }

  /** Nobody is eligible exactly when every roster entry carries a winner's name. */
  lemma CandidatesEmpty(roster: seq<string>, winners: set<string>)
    ensures Candidates(roster, winners) == [] <==> forall k :: 0 <= k < |roster| ==> roster[k] in winners
  {
    var c := Candidates(roster, winners);
    if c == [] {
      forall k | 0 <= k < |roster| ensures roster[k] in winners {
        assert multiset(roster)[roster[k]] > 0;
        assert multiset(c)[roster[k]] == 0;
      }
    } else {
      assert c[0] !in winners;
      assert multiset(c)[c[0]] > 0;
      assert c[0] in multiset(roster);
    }
  }
}
