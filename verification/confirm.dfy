/** The overwrite confirmation (promptOverwriteConfirmation in main.go):
    the user must answer "yes" to the question whether to change the
    value, and then type the current value within three attempts. The
    terminal is modelled as the list of lines the user enters; reading
    past the last one yields the empty string, as main.go ignores the
    read error at end of input. */
module Confirmation {
  import opened Text

  const MaxAttempts: nat := 3

  /** The line read at position `i` of the input: the i-th line entered,
      or "" once the input is exhausted. */
  function Answer(input: seq<string>, i: nat): string {
    if i < |input| then input[i] else ""
  }

  /** The input left after `n` lines have been read. */
  function Drop(input: seq<string>, n: nat): (rest: seq<string>)
    ensures forall i: nat :: Answer(rest, i) == Answer(input, n + i)
  {
    if n <= |input| then input[n..] else []
  }

  /** The answer to the yes/no question, trimmed and lower-cased, is
      exactly "yes". */
  predicate IsYes(answer: string) {
    Lower(Trim(answer)) == "yes"
  }

  /** An attempt at re-entering the current value succeeds when the
      trimmed line equals it exactly. */
  predicate Matches(input: seq<string>, i: nat, current: string) {
    Trim(Answer(input, i)) == current
  }

  /** The outcome of the protocol and the number of lines it read. */
  datatype Verdict = Verdict(confirmed: bool, consumed: nat)

  /** The re-entry loop from attempt `attempt` on (the attempt number is
      also the position of its line, the answer to the question being at
      position 0). It confirms at the first attempt that matches, and
      refuses after the last one. */
  function Attempts(current: string, input: seq<string>, attempt: nat): (v: Verdict)
    requires 1 <= attempt <= MaxAttempts + 1
    ensures v.confirmed ==>
      && attempt < v.consumed <= MaxAttempts + 1
      && Matches(input, v.consumed - 1, current)
      && forall a :: attempt <= a < v.consumed - 1 ==> !Matches(input, a, current)
    ensures !v.confirmed ==>
      && v.consumed == MaxAttempts + 1
      && forall a :: attempt <= a <= MaxAttempts ==> !Matches(input, a, current)
    decreases MaxAttempts + 1 - attempt
  {
    if attempt > MaxAttempts then Verdict(false, attempt)
    else if Matches(input, attempt, current) then Verdict(true, attempt + 1)
    else Attempts(current, input, attempt + 1)
  }

  /** promptOverwriteConfirmation. Any answer other than "yes" refuses
      after reading that one line; after "yes" the protocol confirms at the
      first of at most three re-entries equal to the current value, having
      read the answer and the attempts up to that one, and otherwise
      refuses after reading all four lines. */
  function Confirm(current: string, input: seq<string>): (v: Verdict)
    ensures !IsYes(Answer(input, 0)) ==> v == Verdict(false, 1)
    ensures v.confirmed ==>
      && IsYes(Answer(input, 0))
      && 2 <= v.consumed <= MaxAttempts + 1
      && Matches(input, v.consumed - 1, current)
      && forall a :: 1 <= a < v.consumed - 1 ==> !Matches(input, a, current)
    ensures IsYes(Answer(input, 0)) && !v.confirmed ==>
      && v.consumed == MaxAttempts + 1
      && forall a :: 1 <= a <= MaxAttempts ==> !Matches(input, a, current)
  {
    if !IsYes(Answer(input, 0)) then Verdict(false, 1)
    else Attempts(current, input, 1)
  }

  /** The accepted answers are exactly the eight spellings of "yes" in
      upper and lower case, with any white space around them. */
  lemma YesSpellings(answer: string)
    ensures IsYes(answer) <==>
      var t := Trim(answer);
      && |t| == 3
      && (t[0] == 'y' || t[0] == 'Y')
      && (t[1] == 'e' || t[1] == 'E')
      && (t[2] == 's' || t[2] == 'S')
  {
  }

  /** The protocol confirms exactly when the answer is "yes" and one of the
      next three lines, trimmed, is the current value. */
  lemma ConfirmIff(current: string, input: seq<string>)
    ensures Confirm(current, input).confirmed <==>
      IsYes(Answer(input, 0)) && exists a :: 1 <= a <= MaxAttempts && Matches(input, a, current)
  {
    var v := Confirm(current, input);
    if v.confirmed {
      assert Matches(input, v.consumed - 1, current);
    }
  }

  /** "yes" is recognised in any letter case and with surrounding white
      space. */
  lemma YesIgnoresCaseAndSpace()
    ensures IsYes(" YES ") && IsYes("Yes") && !IsYes("y") && !IsYes("no")
  {
    TrimUnique(" ", "YES", " ");
    var s := " " + "YES" + " ";
    assert forall i :: 0 <= i < 5 ==> s[i] == " YES "[i];
    assert s == " YES ";
    assert Lower("YES") == "yes";
    TrimOfTrimmed("Yes");
    assert Lower("Yes") == "yes";
    TrimOfTrimmed("y");
    TrimOfTrimmed("no");
  }

  /** After "yes", a wrong first attempt and a right second one confirm,
      having read three lines. */
  lemma ConfirmOnSecondAttempt(current: string, input: seq<string>)
    requires IsYes(Answer(input, 0))
    requires !Matches(input, 1, current) && Matches(input, 2, current)
    ensures Confirm(current, input) == Verdict(true, 3)
  {
  }

  /** When the stored value is empty, the first attempt after "yes" that
      reads nothing (an empty line, or the end of the input) confirms. */
  lemma EmptyCurrentConfirmedAtEndOfInput(input: seq<string>)
    requires IsYes(Answer(input, 0)) && |input| <= 1
    ensures Confirm("", input) == Verdict(true, 2)
  {
    assert Answer(input, 1) == "";
    TrimEmptyIff("");
  }
}
