/** The update controller (AddOrUpdateEnvVarSecure in main.go): read the
    store, add the key when it is new, otherwise ask for confirmation and
    replace the value only when it is given, then write the whole store
    back. The file is a parameter: its state before the call and whether
    the write fails; the text handed to the write is a result. */
module Upsert {
  import opened Wrappers
  import opened EnvFile
  import opened Confirmation

  datatype Outcome = Added | Updated | Cancelled

  /** What the controller decides on the loaded store: the outcome, the
      store to write (the loaded one when cancelled), and the number of
      input lines the confirmation read. */
  datatype Decision = Decision(outcome: Outcome, store: Store, consumed: nat)

  /** The decision logic of AddOrUpdateEnvVarSecure. A new key is added
      without asking anything; an existing key is replaced only when the
      confirmation succeeds, and otherwise nothing changes. Either way at
      most the one key changes. */
  function Decide(env: Store, key: string, value: string, input: seq<string>): (d: Decision)
    ensures d.outcome == Added <==> key !in env
    ensures d.outcome == Updated <==> key in env && Confirm(env[key], input).confirmed
    ensures d.outcome != Cancelled ==>
      && d.store.Keys == env.Keys + {key}
      && d.store[key] == value
      && forall k :: k in env && k != key ==> d.store[k] == env[k]
    ensures d.outcome == Cancelled ==> d.store == env
    ensures key !in env ==> d.consumed == 0
    ensures key in env ==> d.consumed == Confirm(env[key], input).consumed
  {
    if key in env then
      var v := Confirm(env[key], input);
      if v.confirmed then Decision(Updated, env[key := value], v.consumed)
      else Decision(Cancelled, env, v.consumed)
    else Decision(Added, env[key := value], 0)
  }

  /** The `.env` file before the call: missing, holding some text, or
      impossible to open (permissions, say). */
  datatype Disk = Absent | Holds(text: string) | Unopenable

  datatype IoError = OpenFailed | WriteFailed

  /** readEnvFileToMap. The file is opened with O_CREATE, so a missing file
      reads as an empty store; only a failure to open is an error. The
      store read is always well formed. */
  function Load(disk: Disk): (r: Result<Store, IoError>)
    ensures r.Failure? <==> disk.Unopenable?
    ensures disk.Absent? ==> r == Success(map[])
    ensures r.Success? ==> WellFormedStore(r.value)
  {
    match disk
    case Absent => Success(map[])
    case Holds(text) => ParseWellFormed(text); Success(Parse(text))
    case Unopenable => Failure(OpenFailed)
  }

  /** AddOrUpdateEnvVarSecure. Returns main.go's (added, updated, err)
      triple, the text handed to the one write (none when the call ends
      before writing), and the number of input lines read. A read error
      ends the call before anything is asked or written; a cancelled
      update writes nothing; added and updated are never both set, and a
      failed write still reports which of the two was attempted. For a
      well formed key and value, the written text reads back as the loaded
      store with the key set to the value (minus keys that look like
      comments); for any key and value, it is that store written in some
      iteration order. */
  method AddOrUpdate(disk: Disk, key: string, value: string, input: seq<string>, writeFails: bool)
    returns (added: bool, updated: bool, err: Option<IoError>, written: Option<string>, consumed: nat)
    ensures Load(disk).Failure? ==>
      !added && !updated && err == Some(OpenFailed) && written == None && consumed == 0
    ensures !(added && updated)
    ensures Load(disk).Success? ==>
      var env := Load(disk).value;
      && (added <==> key !in env)
      && (updated <==> key in env && Confirm(env[key], input).confirmed)
      && (written.Some? <==> added || updated)
      && (err.Some? <==> written.Some? && writeFails)
      && (err.Some? ==> err.value == WriteFailed)
      && (key !in env ==> consumed == 0)
      && (key in env ==> consumed == Confirm(env[key], input).consumed)
      && (written.Some? ==>
            exists es :: IsListing(es, env[key := value]) && written.value == Render(es))
      && (written.Some? && WellFormedEntry(key, value) ==>
            Parse(written.value) == Visible(env[key := value]))
  {
    match Load(disk)
    case Failure(e) =>
      return false, false, Some(e), None, 0;
    case Success(env) =>
      var d := Decide(env, key, value, input);
      consumed := d.consumed;
      if d.outcome == Cancelled {
        return false, false, None, None, consumed;
      }
      assert d.store == env[key := value];
      var es, text := Serialise(d.store);
      assert IsListing(es, env[key := value]) && text == Render(es);
      written := Some(text);
      err := if writeFails then Some(WriteFailed) else None;
      added := d.outcome == Added;
      updated := d.outcome == Updated;
  }

  /** An update that goes through changes only the key's value: whatever
      order the writer lists the new store in, every other key that does
      not look like a comment reads back from the written file with its old
      value, and the key reads back with the new value. */
  lemma UpdateChangesOnlyKey(env: Store, key: string, value: string, input: seq<string>, es: seq<Entry>)
    requires WellFormedStore(env) && WellFormedEntry(key, value)
    requires key in env && Confirm(env[key], input).confirmed
    requires IsListing(es, Decide(env, key, value, input).store)
    ensures Decide(env, key, value, input).outcome == Updated
    ensures forall k :: k in env && k != key && !IsCommentKey(k) ==>
      k in Parse(Render(es)) && Parse(Render(es))[k] == env[k]
    ensures !IsCommentKey(key) ==> key in Parse(Render(es)) && Parse(Render(es))[key] == value
  {
    RoundTrip(env[key := value], es);
  }

  /** Any answer but "yes" to an existing key cancels, keeps the store and
      reads one line only. */
  lemma RefusalKeepsStore(env: Store, key: string, value: string, input: seq<string>)
    requires key in env && !IsYes(Answer(input, 0))
    ensures Decide(env, key, value, input) == Decision(Cancelled, env, 1)
  {
  }

  /** After "yes", three wrong re-entries cancel and keep the store. */
  lemma ThreeMismatchesKeepStore(env: Store, key: string, value: string, input: seq<string>)
    requires key in env && IsYes(Answer(input, 0))
    requires forall a :: 1 <= a <= MaxAttempts ==> !Matches(input, a, env[key])
    ensures Decide(env, key, value, input) == Decision(Cancelled, env, MaxAttempts + 1)
  {
    ConfirmIff(env[key], input);
  }
}
