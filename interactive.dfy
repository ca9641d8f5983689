/**
 * The command loop `interactive_mode`: each prompt answer is dispatched in
 * the order quit, refresh, story number, anything else. The only state is
 * the held entry list, replaced by a refresh whose fetch returned entries.
 * The fetch is not performed here: each turn carries the list `fetch_feed`
 * would return at that moment, empty for a failed fetch.
 */
module Interactive {
  import opened Numerals
  import opened Feed

  /** The four commands, as recognised from the answer to the prompt. */
  datatype Command = Quit | Refresh | Select(number: nat) | Unknown

  /** What a turn of the loop shows. */
  datatype Outcome =
    | Farewell                      // "Thanks for reading!", and the loop ends
    | Refreshed(replaced: bool)     // header and table redrawn; `replaced` when the fetch returned entries
    | ShowStory(index: nat)         // detail panel of the entry at 0-based `index`
    | InvalidStoryNumber
    | InvalidCommand

  /**
   * One line typed at the prompt (empty when the user just pressed Enter),
   * with what a fetch would return at that moment.
   */
  datatype Turn = Turn(line: string, fetched: seq<Entry>)

  /** The state after a run of turns, with what each processed turn showed. */
  datatype Session = Session(entries: seq<Entry>, outcomes: seq<Outcome>, running: bool)

  /** `str.isspace()` on ASCII: blank, tab, the line and page breaks (9..13) and the separators 28..31. */
  predicate IsSpace(c: char) {
    c == ' ' || 9 <= c as int <= 13 || 28 <= c as int <= 31
  }

  predicate AllSpace(s: string) {
    forall i :: 0 <= i < |s| ==> IsSpace(s[i])
  }

  /** `str.lstrip()`: drops the leading whitespace (see `StripLeftShape`). */
  function StripLeft(s: string): string
    decreases |s|
  {
    if s != [] && IsSpace(s[0]) then StripLeft(s[1..]) else s
  }

  /** `str.rstrip()`: drops the trailing whitespace (see `StripRightShape`). */
  function StripRight(s: string): string
    decreases |s|
  {
    if s != [] && IsSpace(s[|s| - 1]) then StripRight(s[..|s| - 1]) else s
  }

  /** `str.strip()`: drops the whitespace at both ends (see `StripEnds`, `StripBlank`, `StripPadded`). */
  function Strip(s: string): string {
    StripRight(StripLeft(s))
  }

  /** `lstrip()` leaves a suffix that starts with a non-blank, and drops only blanks. */
  lemma {:induction false} StripLeftShape(s: string)
    ensures |StripLeft(s)| <= |s| && StripLeft(s) == s[|s| - |StripLeft(s)|..]
    ensures StripLeft(s) == [] || !IsSpace(StripLeft(s)[0])
    ensures AllSpace(s[..|s| - |StripLeft(s)|])
    decreases |s|
  {
    if s != [] && IsSpace(s[0]) {
      StripLeftShape(s[1..]);
      var k := |s| - |StripLeft(s)|;
      assert s[..k] == [s[0]] + s[1..][..k - 1];
    }
  }

  /** `rstrip()` leaves a prefix that ends with a non-blank, and drops only blanks. */
  lemma {:induction false} StripRightShape(s: string)
    ensures |StripRight(s)| <= |s| && StripRight(s) == s[..|StripRight(s)|]
    ensures StripRight(s) == [] || !IsSpace(StripRight(s)[|StripRight(s)| - 1])
    ensures AllSpace(s[|StripRight(s)|..])
    decreases |s|
  {
    if s != [] && IsSpace(s[|s| - 1]) {
      StripRightShape(s[..|s| - 1]);
      var k := |StripRight(s)|;
      assert s[k..] == s[..|s| - 1][k..] + [s[|s| - 1]];
    }
  }

  /** `strip()` leaves no blank at either end. */
  lemma StripEnds(s: string)
    ensures |Strip(s)| <= |s|
    ensures Strip(s) == [] || (!IsSpace(Strip(s)[0]) && !IsSpace(Strip(s)[|Strip(s)| - 1]))
  {
    StripLeftShape(s);
    StripRightShape(StripLeft(s));
    if Strip(s) != [] {
      assert Strip(s)[0] == StripLeft(s)[0];
    }
  }

  /** `strip()` leaves nothing exactly of a blank string. */
  lemma StripBlank(s: string)
    ensures Strip(s) == [] <==> AllSpace(s)
  {
    var u := StripLeft(s);
    if AllSpace(s) {
      assert s + [] + [] == s;
      StripPadded(s, [], []);
    } else if Strip(s) == [] {
      StripLeftShape(s);
      StripRightShape(u);
      assert u == [];
      forall i | 0 <= i < |s|
        ensures IsSpace(s[i])
      {
        assert s[i] == s[..|s| - |u|][i];
      }
      assert false;
    }
  }

  lemma {:induction false} StripLeftPadded(before: string, rest: string)
    requires AllSpace(before) && (rest == [] || !IsSpace(rest[0]))
    ensures StripLeft(before + rest) == rest
    decreases |before|
  {
    if before != [] {
      assert (before + rest)[1..] == before[1..] + rest;
      StripLeftPadded(before[1..], rest);
    }
  }

  lemma {:induction false} StripRightPadded(rest: string, after: string)
    requires AllSpace(after) && (rest == [] || !IsSpace(rest[|rest| - 1]))
    ensures StripRight(rest + after) == rest
    decreases |after|
  {
    if after != [] {
      assert (rest + after)[..|rest + after| - 1] == rest + after[..|after| - 1];
      StripRightPadded(rest, after[..|after| - 1]);
    }
  }

  /** `strip()` removes exactly the whitespace around a word. */
  lemma StripPadded(before: string, word: string, after: string)
    requires AllSpace(before) && AllSpace(after)
    requires word == [] || (!IsSpace(word[0]) && !IsSpace(word[|word| - 1]))
    ensures Strip(before + word + after) == word
  {
    if word == [] {
      assert before + word + after == (before + after) + [];
      StripLeftPadded(before + after, []);
    } else {
      assert before + word + after == before + (word + after);
      StripLeftPadded(before, word + after);
      StripRightPadded(word, after);
    }
  }

  /**
   * The answer `Prompt.ask(..., default="q")` returns for a typed line: "q"
   * for an empty line, otherwise the line with its surrounding whitespace
   * stripped; so a line of blanks gives the empty answer.
   */
  function PromptChoice(line: string): (c: string)
    ensures line == "" ==> c == "q"
    ensures line != "" ==> |c| <= |line|
    ensures c == "" || (!IsSpace(c[0]) && !IsSpace(c[|c| - 1]))
  {
    if line == "" then "q" else StripEnds(line); Strip(line)
  }

  /** The answer is empty exactly for a non-empty line of blanks; a padded word is answered as the word. */
  lemma PromptChoiceBlank(before: string, word: string, after: string)
    requires AllSpace(before) && AllSpace(after)
    requires word == [] || (!IsSpace(word[0]) && !IsSpace(word[|word| - 1]))
    ensures PromptChoice(before + word + after) == "" <==> before + word + after != "" && word == ""
    ensures before + word + after != "" ==> PromptChoice(before + word + after) == word
  {
    StripPadded(before, word, after);
  }

  function LowerChar(c: char): char {
    if 'A' <= c <= 'Z' then (c as int + 32) as char else c
  }

  /** `str.lower()` on ASCII letters; every other character is kept. */
  function Lower(s: string): (t: string)
    ensures |t| == |s|
    ensures forall i :: 0 <= i < |s| ==> t[i] == LowerChar(s[i])
  {
    if s == [] then [] else [LowerChar(s[0])] + Lower(s[1..])
  }

  predicate IsQuitChoice(choice: string) {
    choice == "q" || choice == "Q"
  }

  predicate IsRefreshChoice(choice: string) {
    choice == "r" || choice == "R"
  }

  /** The one-letter answers whose lower case is `letter`. */
  lemma LowerIsLetter(choice: string, letter: char)
    requires 'a' <= letter <= 'z'
    ensures Lower(choice) == [letter] <==> choice == [letter] || choice == [(letter as int - 32) as char]
  {
    if Lower(choice) == [letter] {
      assert |choice| == 1 && LowerChar(choice[0]) == letter;
    }
  }

  /**
   * The dispatch of `interactive_mode`: "q" or "Q" quits, "r" or "R"
   * refreshes, a string of digits selects a story by its number, and anything
   * else is an unknown command.
   */
  function ParseCommand(choice: string): (c: Command)
    ensures c == Quit <==> IsQuitChoice(choice)
    ensures c == Refresh <==> IsRefreshChoice(choice)
    ensures c.Select? <==> IsDigits(choice)
    ensures c.Select? ==> c.number == DecimalValue(choice)
    ensures c == Unknown <==> !IsQuitChoice(choice) && !IsRefreshChoice(choice) && !IsDigits(choice)
  {
    LowerIsLetter(choice, 'q');
    LowerIsLetter(choice, 'r');
    if Lower(choice) == "q" then Quit
    else if Lower(choice) == "r" then Refresh
    else if IsDigits(choice) then Select(DecimalValue(choice))
    else Unknown
  }

  /**
   * One turn of the loop on the held `entries`: the new held list and what is
   * shown. Only a refresh whose fetch returned entries changes the list; a
   * story number selects entry `n - 1` exactly when 1 <= n <= |entries|.
   */
  function Step(entries: seq<Entry>, choice: string, fetched: seq<Entry>): (r: (seq<Entry>, Outcome))
    ensures r.1 == Farewell <==> IsQuitChoice(choice)
    ensures r.1.Refreshed? <==> IsRefreshChoice(choice)
    ensures r.1 == Refreshed(true) <==> IsRefreshChoice(choice) && fetched != []
    ensures r.1.ShowStory? <==> IsDigits(choice) && 1 <= DecimalValue(choice) <= |entries|
    ensures r.1.ShowStory? ==> r.1.index < |entries| && r.1.index + 1 == DecimalValue(choice)
    ensures r.1 == InvalidStoryNumber <==> IsDigits(choice) && !(1 <= DecimalValue(choice) <= |entries|)
    ensures r.1 == InvalidCommand <==> !IsQuitChoice(choice) && !IsRefreshChoice(choice) && !IsDigits(choice)
    ensures r.0 == (if r.1 == Refreshed(true) then fetched else entries)
  {
    match ParseCommand(choice)
    case Quit => (entries, Farewell)
    case Refresh => if fetched != [] then (fetched, Refreshed(true)) else (entries, Refreshed(false))
    case Select(n) =>
      var idx := n - 1;
      if 0 <= idx < |entries| then (entries, ShowStory(idx)) else (entries, InvalidStoryNumber)
    case Unknown => (entries, InvalidCommand)
  }

  /**
   * One turn of the loop: the typed line goes through `Prompt.ask`, so an
   * empty line quits like "q" and any other line is stripped of surrounding
   * whitespace, and the answer is dispatched by `Step`.
   */
  function TakeTurn(entries: seq<Entry>, turn: Turn): (r: (seq<Entry>, Outcome))
    ensures r.1 == Farewell <==> turn.line == "" || IsQuitChoice(Strip(turn.line))
    ensures r.1 != Farewell ==> r == Step(entries, Strip(turn.line), turn.fetched)
    ensures r.0 == (if r.1 == Refreshed(true) then turn.fetched else entries)
  {
    Step(entries, PromptChoice(turn.line), turn.fetched)
  }

  /** Puts the outcomes of earlier turns in front of a session. */
  function Prepend(outcomes: seq<Outcome>, s: Session): Session {
    Session(s.entries, outcomes + s.outcomes, s.running)
  }

  /**
   * The loop over a script of turns: it stops after the first quit, and is
   * still running if the script ends first.
   */
  function Run(entries: seq<Entry>, turns: seq<Turn>): (s: Session)
    ensures |s.outcomes| <= |turns|
    ensures s.running ==> |s.outcomes| == |turns|
    ensures !s.running ==> |s.outcomes| > 0
    decreases |turns|
  {
    if turns == [] then Session(entries, [], true)
    else
      var (next, outcome) := TakeTurn(entries, turns[0]);
      if outcome == Farewell then Session(next, [Farewell], false)
      else Prepend([outcome], Run(next, turns[1..]))
  }

  /** One turn of `Run`: a quit ends it, any other turn is followed by the rest. */
  lemma RunUnfold(entries: seq<Entry>, turns: seq<Turn>)
    requires turns != []
    ensures var (next, outcome) := TakeTurn(entries, turns[0]);
            Run(entries, turns) ==
              if outcome == Farewell then Session(next, [Farewell], false)
              else Prepend([outcome], Run(next, turns[1..]))
  {
  }

  lemma PrependTwice(a: seq<Outcome>, b: seq<Outcome>, s: Session)
    ensures Prepend(a, Prepend(b, s)) == Prepend(a + b, s)
  {
  }

  /** `interactive_mode`, reading its answers from `turns`. */
  method InteractiveMode(entries: seq<Entry>, turns: seq<Turn>)
    returns (held: seq<Entry>, outcomes: seq<Outcome>, running: bool)
    ensures Session(held, outcomes, running) == Run(entries, turns)
  {
    held, outcomes, running := entries, [], true;
    var i := 0;
    while i < |turns|
      invariant 0 <= i <= |turns|
      invariant Run(entries, turns) == Prepend(outcomes, Run(held, turns[i..]))
    {
      RunUnfold(held, turns[i..]);
      assert turns[i..][0] == turns[i] && turns[i..][1..] == turns[i + 1..];
      var (next, outcome) := TakeTurn(held, turns[i]);
      PrependTwice(outcomes, [outcome], Run(next, turns[i + 1..]));
      held, outcomes := next, outcomes + [outcome];
      if outcome == Farewell {
        running := false;
        break;
      }
      i := i + 1;
    }
  }

  /**
   * What a turn showed matches the kind of command answered, and a refresh
   * replaced the list exactly when its fetch returned entries.
   */
  predicate Answers(o: Outcome, turn: Turn) {
    && (o == Farewell <==> IsQuitChoice(PromptChoice(turn.line)))
    && (o.Refreshed? <==> IsRefreshChoice(PromptChoice(turn.line)))
    && (o == Refreshed(true) <==> IsRefreshChoice(PromptChoice(turn.line)) && turn.fetched != [])
    && (o.ShowStory? || o == InvalidStoryNumber <==> IsDigits(PromptChoice(turn.line)))
    && (o == InvalidCommand <==> !IsQuitChoice(PromptChoice(turn.line)) && !IsRefreshChoice(PromptChoice(turn.line)) && !IsDigits(PromptChoice(turn.line)))
  }

  /** The outcomes after the first turn are those of the run on the remaining turns. */
  lemma RunShift(entries: seq<Entry>, turns: seq<Turn>)
    requires turns != []
    requires TakeTurn(entries, turns[0]).1 != Farewell
    ensures var rest := Run(TakeTurn(entries, turns[0]).0, turns[1..]);
            && Run(entries, turns).entries == rest.entries
            && Run(entries, turns).running == rest.running
            && |Run(entries, turns).outcomes| == |rest.outcomes| + 1
            && Run(entries, turns).outcomes[0] == TakeTurn(entries, turns[0]).1
            && forall i :: 0 <= i < |rest.outcomes| ==> Run(entries, turns).outcomes[i + 1] == rest.outcomes[i]
  {
    RunUnfold(entries, turns);
  }

  /** Only a quit ends the loop: the session stops exactly when the script holds a quit. */
  lemma {:induction false} RunStopsAtFirstQuit(entries: seq<Entry>, turns: seq<Turn>)
    ensures Run(entries, turns).running <==> forall i :: 0 <= i < |turns| ==> !IsQuitChoice(PromptChoice(turns[i].line))
    decreases |turns|
  {
    if turns != [] {
      var (next, outcome) := TakeTurn(entries, turns[0]);
      RunUnfold(entries, turns);
      if outcome != Farewell {
        RunShift(entries, turns);
        RunStopsAtFirstQuit(next, turns[1..]);
        assert forall i :: 1 <= i < |turns| ==> turns[i] == turns[1..][i - 1];
      }
    }
  }

  /** The first quit is the last turn processed; every turn before it keeps the loop running. */
  lemma {:induction false} RunQuitIsLast(entries: seq<Entry>, turns: seq<Turn>)
    ensures forall j :: 0 <= j < |Run(entries, turns).outcomes| ==>
              (IsQuitChoice(PromptChoice(turns[j].line)) <==>
               !Run(entries, turns).running && j == |Run(entries, turns).outcomes| - 1)
    decreases |turns|
  {
    if turns != [] {
      var (next, outcome) := TakeTurn(entries, turns[0]);
      RunUnfold(entries, turns);
      if outcome != Farewell {
        RunShift(entries, turns);
        RunQuitIsLast(next, turns[1..]);
        assert forall i :: 1 <= i < |turns| ==> turns[i] == turns[1..][i - 1];
      }
    }
  }

  /**
   * Each processed turn shows the kind of outcome its line calls for; which
   * story a number shows is `RunOutcomeOfTurn`.
   */
  lemma {:induction false} RunFollowsCommands(entries: seq<Entry>, turns: seq<Turn>)
    ensures forall j :: 0 <= j < |Run(entries, turns).outcomes| ==> Answers(Run(entries, turns).outcomes[j], turns[j])
    decreases |turns|
  {
    if turns != [] {
      var (next, outcome) := TakeTurn(entries, turns[0]);
      RunUnfold(entries, turns);
      if outcome != Farewell {
        RunShift(entries, turns);
        RunFollowsCommands(next, turns[1..]);
        assert forall i :: 1 <= i < |turns| ==> turns[i] == turns[1..][i - 1];
      }
    }
  }

  /**
   * Turn `j` of a run answers the line read at that turn with the list held
   * just before it: the one the earlier outcomes left in place.
   */
  lemma {:induction false} RunOutcomeOfTurn(entries: seq<Entry>, turns: seq<Turn>, j: nat)
    requires j < |Run(entries, turns).outcomes|
    ensures Run(entries, turns).outcomes[j] == TakeTurn(Held(entries, turns, Run(entries, turns).outcomes[..j]), turns[j]).1
    decreases j
  {
    var outcomes := Run(entries, turns).outcomes;
    if j == 0 {
      assert outcomes[..0] == [];
      RunUnfold(entries, turns);
    } else {
      var (next, outcome) := TakeTurn(entries, turns[0]);
      var rest := Run(next, turns[1..]).outcomes;
      assert outcome != Farewell && outcomes == [outcome] + rest by {
        RunUnfold(entries, turns);
      }
      RunOutcomeOfTurn(next, turns[1..], j - 1);
      HeldShift(entries, turns, outcomes, j, next);
      assert turns[1..][j - 1] == turns[j];
    }
  }

  /** `Held` over the first `j` outcomes, one outcome at a time. */
  lemma HeldShift(entries: seq<Entry>, turns: seq<Turn>, outcomes: seq<Outcome>, j: nat, next: seq<Entry>)
    requires 0 < j <= |outcomes| <= |turns|
    requires next == if outcomes[0] == Refreshed(true) then turns[0].fetched else entries
    ensures Held(entries, turns, outcomes[..j]) == Held(next, turns[1..], outcomes[1..][..j - 1])
  {
    assert outcomes[..j][1..] == outcomes[1..][..j - 1];
  }

  /** No outcome after position `j` is a refresh that replaced the list (`j == -1`: none at all). */
  predicate NoReplacementAfter(outcomes: seq<Outcome>, j: int) {
    forall k :: 0 <= k < |outcomes| && j < k ==> outcomes[k] != Refreshed(true)
  }

  /**
   * The held list read off the outcomes alone: start from `entries` and take
   * the fetched list of every turn whose refresh replaced the list.
   */
  function Held(entries: seq<Entry>, turns: seq<Turn>, outcomes: seq<Outcome>): seq<Entry>
    requires |outcomes| <= |turns|
    decreases |outcomes|
  {
    if outcomes == [] then entries
    else Held(if outcomes[0] == Refreshed(true) then turns[0].fetched else entries, turns[1..], outcomes[1..])
  }

  /** The list the loop ends with is the one its outcomes call for. */
  lemma {:induction false} RunHeld(entries: seq<Entry>, turns: seq<Turn>)
    ensures Run(entries, turns).entries == Held(entries, turns, Run(entries, turns).outcomes)
    decreases |turns|
  {
    if turns != [] {
      var (next, outcome) := TakeTurn(entries, turns[0]);
      RunUnfold(entries, turns);
      if outcome == Farewell {
        assert Held(entries, turns, [Farewell]) == Held(entries, turns[1..], []);
      } else {
        var rest := Run(next, turns[1..]);
        RunHeld(next, turns[1..]);
        assert ([outcome] + rest.outcomes)[1..] == rest.outcomes;
      }
    }
  }

  /** Without a refresh that replaced the list, the list held is the initial one. */
  lemma {:induction false} HeldKeepsUntilRefresh(entries: seq<Entry>, turns: seq<Turn>, outcomes: seq<Outcome>)
    requires |outcomes| <= |turns| && NoReplacementAfter(outcomes, -1)
    ensures Held(entries, turns, outcomes) == entries
    decreases |outcomes|
  {
    if outcomes != [] {
      assert outcomes[0] != Refreshed(true);
      HeldKeepsUntilRefresh(entries, turns[1..], outcomes[1..]);
    }
  }

  /** After the last refresh that replaced the list, the list held is what that refresh fetched. */
  lemma {:induction false} HeldIsLastFetch(entries: seq<Entry>, turns: seq<Turn>, outcomes: seq<Outcome>, j: nat)
    requires |outcomes| <= |turns| && j < |outcomes| && outcomes[j] == Refreshed(true)
    requires NoReplacementAfter(outcomes, j)
    ensures Held(entries, turns, outcomes) == turns[j].fetched
    decreases |outcomes|
  {
    var next := if outcomes[0] == Refreshed(true) then turns[0].fetched else entries;
    if j == 0 {
      HeldKeepsUntilRefresh(next, turns[1..], outcomes[1..]);
    } else {
      HeldIsLastFetch(next, turns[1..], outcomes[1..], j - 1);
    }
  }

  /** Until a refresh fetches entries the held list is the initial one. */
  lemma RunKeepsUntilRefresh(entries: seq<Entry>, turns: seq<Turn>)
    requires NoReplacementAfter(Run(entries, turns).outcomes, -1)
    ensures Run(entries, turns).entries == entries
  {
    RunHeld(entries, turns);
    HeldKeepsUntilRefresh(entries, turns, Run(entries, turns).outcomes);
  }

  /** After a refresh that fetched entries, the held list is that of the last such refresh. */
  lemma RunHoldsLastFetch(entries: seq<Entry>, turns: seq<Turn>, j: nat)
    requires j < |Run(entries, turns).outcomes| && Run(entries, turns).outcomes[j] == Refreshed(true)
    requires NoReplacementAfter(Run(entries, turns).outcomes, j)
    ensures Run(entries, turns).entries == turns[j].fetched
  {
    RunHeld(entries, turns);
    HeldIsLastFetch(entries, turns, Run(entries, turns).outcomes, j);
  }

  /** A held list that is not empty stays non-empty: a failed refresh never clears it. */
  lemma {:induction false} RunKeepsEntries(entries: seq<Entry>, turns: seq<Turn>)
    requires entries != []
    ensures Run(entries, turns).entries != []
    decreases |turns|
  {
    if turns != [] {
      var (next, outcome) := TakeTurn(entries, turns[0]);
      RunUnfold(entries, turns);
      if outcome != Farewell {
        RunShift(entries, turns);
        RunKeepsEntries(next, turns[1..]);
      }
    }
  }

  /** The documented command examples, on a list of three entries. */
  lemma CommandExamples(entries: seq<Entry>, fetched: seq<Entry>)
    requires |entries| == 3
    ensures Step(entries, "q", fetched) == (entries, Farewell)
    ensures Step(entries, "5", fetched) == (entries, InvalidStoryNumber)
    ensures Step(entries, "0", fetched) == (entries, InvalidStoryNumber)
    ensures Step(entries, "3", fetched) == (entries, ShowStory(2))
    ensures Step(entries, "xyz", fetched) == (entries, InvalidCommand)
    ensures Step(entries, "R", []) == (entries, Refreshed(false))
  {
    assert IsDigits("5") && DecimalValue("5") == 5;
    assert IsDigits("0") && DecimalValue("0") == 0;
    assert IsDigits("3") && DecimalValue("3") == 3;
    assert !IsDigit("xyz"[0]);
  }

  /** What `Prompt.ask` answers for some typed lines. */
  lemma PromptExamples()
    ensures PromptChoice("") == "q"
    ensures PromptChoice(" q ") == "q"
    ensures PromptChoice("3 ") == "3"
    ensures PromptChoice("   ") == ""
  {
    assert " " + "q" + " " == " q ";
    StripPadded(" ", "q", " ");
    assert "" + "3" + " " == "3 ";
    StripPadded("", "3", " ");
    assert "   " + "" + "" == "   ";
    StripPadded("   ", "", "");
  }

  /** What the loop makes of those lines, on a list of three entries. */
  lemma TurnExamples(entries: seq<Entry>, fetched: seq<Entry>)
    requires |entries| == 3
    ensures TakeTurn(entries, Turn("", fetched)) == (entries, Farewell)
    ensures TakeTurn(entries, Turn(" q ", fetched)) == (entries, Farewell)
    ensures TakeTurn(entries, Turn("3 ", fetched)) == (entries, ShowStory(2))
    ensures TakeTurn(entries, Turn("   ", fetched)) == (entries, InvalidCommand)
  {
    PromptExamples();
    assert IsDigits("3") && DecimalValue("3") == 3;
  }
}
