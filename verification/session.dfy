/** One run of the tool (main and promptValidInput in main.go), with the
    terminal as the list of lines the user enters. The key line is read
    once and a key the normaliser rejects ends the run; the value prompt
    repeats until a line passes validation; then the update controller
    runs on the rest of the input. */
module Session {
  import opened Wrappers
  import opened Text
  import opened KeyFormat
  import opened ValueCheck
  import opened EnvFile
  import opened Confirmation
  import opened Upsert

  datatype RunEnd = KeyRejected | IoFailure(error: IoError) | Finished(outcome: Outcome)

  /** promptValidInput with validateValue, reading from position `from`:
      each line is trimmed and validated, and the first one that passes
      gives the value. Past the end of the input the line read is "",
      which passes, so the loop always ends. Returns the value and the
      position after its line. */
  function PromptValue(input: seq<string>, from: nat): (r: (string, nat))
    ensures r.1 > from
    ensures Validate(Trim(Answer(input, r.1 - 1))) == Success(r.0)
    ensures forall j :: from <= j < r.1 - 1 ==> Validate(Trim(Answer(input, j))).Failure?
    decreases if from < |input| then |input| - from else 0
  {
    if from >= |input| then
      assert Trim("") == "";
      ("", from + 1)
    else
      match Validate(Trim(input[from]))
      case Success(v) => (v, from + 1)
      case Failure(_) => PromptValue(input, from + 1)
  }

  /** No line holds a newline: what reading up to '\n' guarantees. */
  predicate LineInput(input: seq<string>) {
    forall i :: 0 <= i < |input| ==> '\n' !in input[i]
  }

  /** A canonical key is written and read back as itself. */
  lemma CanonicalKeyWellFormed(k: string, v: string)
    requires IsCanonical(k) && IsTrimmed(v) && '\n' !in v
    ensures WellFormedEntry(k, v) && !IsCommentKey(k)
  {
    assert k[|k| - 1] == Suffix[3];
    assert '=' !in k && '\n' !in k by {
      assert forall i :: 0 <= i < |k| ==> IsKeyChar(k[i]);
    }
  }

  /** An accepted value read from one line holds no newline. */
  lemma ValueHasNoNewline(input: seq<string>, i: nat)
    requires LineInput(input)
    requires Validate(Trim(Answer(input, i))).Success?
    ensures '\n' !in Validate(Trim(Answer(input, i))).value
  {
    var line := Answer(input, i);
    if '\n' in Trim(line) {
      TrimSubset(line, '\n');
    }
  }

  /** main. A key line the normaliser rejects ends the run at once, with
      nothing read or written. Otherwise, whenever the file is written,
      the stored key is the canonical one and its value the first accepted
      value line, and the written file reads back as the loaded store with
      that entry set. A new key is always written; an existing one only
      when the confirmation, read from the lines after the value, succeeds.
      The end reports the outcome, or the failed write. A cancelled update
      and an unreadable file write nothing. */
  method Run(disk: Disk, input: seq<string>, writeFails: bool) returns (end: RunEnd, written: Option<string>)
    ensures end == KeyRejected <==> Format(Trim(Answer(input, 0))).Failure?
    ensures end == KeyRejected ==> written == None
    ensures end == Finished(Cancelled) || end == IoFailure(OpenFailed) ==> written == None
    ensures disk.Unopenable? && end != KeyRejected ==> end == IoFailure(OpenFailed)
    ensures written.Some? ==>
      var key := Format(Trim(Answer(input, 0))).value;
      var value := PromptValue(input, 1).0;
      && Format(Trim(Answer(input, 0))).Success?
      && IsCanonical(key)
      && !HasCyrillic(value)
      && (LineInput(input) ==>
            && Parse(written.value) == Visible(Load(disk).value[key := value])
            && key in Parse(written.value)
            && Parse(written.value)[key] == value)
    ensures Format(Trim(Answer(input, 0))).Success? && Load(disk).Success? ==>
      var key := Format(Trim(Answer(input, 0))).value;
      var prompted := PromptValue(input, 1);
      var env := Load(disk).value;
      var confirmed := key in env && Confirm(env[key], Drop(input, prompted.1)).confirmed;
      && (written.Some? <==> key !in env || confirmed)
      && (written.Some? ==>
            exists es :: IsListing(es, env[key := prompted.0]) && written.value == Render(es))
      && (end == Finished(Added) <==> key !in env && !writeFails)
      && (end == Finished(Updated) <==> confirmed && !writeFails)
      && (end == Finished(Cancelled) <==> key in env && !confirmed)
      && (end == IoFailure(WriteFailed) <==> (key !in env || confirmed) && writeFails)
  {
    var original := Trim(Answer(input, 0));
    match Format(original)
    case Failure(_) =>
      return KeyRejected, None;
    case Success(key) =>
      var (value, next) := PromptValue(input, 1);
      var added, updated, err, w, consumed := AddOrUpdate(disk, key, value, Drop(input, next), writeFails);
      written := w;
      if err.Some? {
        end := IoFailure(err.value);
      } else if added {
        end := Finished(Added);
      } else if updated {
        end := Finished(Updated);
      } else {
        end := Finished(Cancelled);
      }
      if written.Some? && LineInput(input) {
        ValueHasNoNewline(input, next - 1);
        CanonicalKeyWellFormed(key, value);
      }
  }
}
