/** The key normaliser (formatAndValidateKey in main.go): trims the typed
    key, turns spaces into underscores, upper-cases it, accepts only upper
    case Latin letters and underscores, and makes sure it ends in "_KEY". */
module KeyFormat {
  import opened Wrappers
  import opened Text

  const Suffix: string := "_KEY"

  datatype KeyError = InvalidCharacters

  /** The character class [A-Z_]. */
  predicate IsKeyChar(c: char) {
    'A' <= c <= 'Z' || c == '_'
  }

  predicate AllKeyChars(s: string) {
    forall i :: 0 <= i < |s| ==> IsKeyChar(s[i])
  }

  /** The invariant of a canonical key: only [A-Z_], ending in "_KEY"
      (which makes it non-empty). */
  predicate IsCanonical(k: string) {
    AllKeyChars(k) && HasSuffix(k, Suffix)
  }

  /** A character the user may type in a key: a Latin letter of either
      case, an underscore, or a space. */
  predicate IsKeyInputChar(c: char) {
    c == ' ' || c == '_' || 'A' <= c <= 'Z' || 'a' <= c <= 'z'
  }

  /** What one character of the trimmed input becomes: a space turns into an
      underscore, then the result is upper-cased. */
  function CanonChar(c: char): char {
    UpperChar(if c == ' ' then '_' else c)
  }

  /** strings.ReplaceAll(t, " ", "_") followed by strings.ToUpper. */
  function Prepare(t: string): (u: string)
    ensures |u| == |t|
    ensures forall i :: 0 <= i < |t| ==> u[i] == CanonChar(t[i])
  {
    Upper(seq(|t|, i requires 0 <= i < |t| => if t[i] == ' ' then '_' else t[i]))
  }

  /** The prepared input is all [A-Z_] exactly when the typed input is all
      Latin letters, underscores and spaces. */
  lemma PrepareKeyChars(t: string)
    ensures AllKeyChars(Prepare(t)) <==> forall i :: 0 <= i < |t| ==> IsKeyInputChar(t[i])
  {
    var u := Prepare(t);
    forall i | 0 <= i < |t|
      ensures IsKeyChar(u[i]) <==> IsKeyInputChar(t[i])
    {
      assert u[i] == CanonChar(t[i]);
    }
  }

  /** formatAndValidateKey. On success the key is canonical; it succeeds
      exactly when the trimmed input is non-empty and made only of Latin
      letters, underscores and spaces; and the result begins with the
      input, character by character, with spaces as underscores and
      letters upper-cased, followed by nothing or by "_KEY". */
  function Format(raw: string): (r: Result<string, KeyError>)
    ensures r.Success? ==> IsCanonical(r.value)
    ensures r.Success? <==>
      (|Trim(raw)| > 0 && forall i :: 0 <= i < |Trim(raw)| ==> IsKeyInputChar(Trim(raw)[i]))
    ensures r.Success? ==>
      && (|r.value| == |Trim(raw)| || |r.value| == |Trim(raw)| + |Suffix|)
      && forall i :: 0 <= i < |Trim(raw)| ==> r.value[i] == CanonChar(Trim(raw)[i])
  {
    var t := Trim(raw);
    var u := Prepare(t);
    PrepareKeyChars(t);
    if |u| == 0 || !AllKeyChars(u) then Failure(InvalidCharacters)
    else if HasSuffix(u, Suffix) then Success(u)
    else
      var k := u + Suffix;
      assert k[|u|..] == Suffix;
      assert forall i :: 0 <= i < |u| ==> k[i] == u[i];
      Success(k)
  }

  /** The suffix is never doubled: when the prepared input already ends in
      "_KEY" it is returned as it is. */
  lemma FormatKeepsExistingSuffix(raw: string)
    requires Format(raw).Success?
    ensures HasSuffix(Prepare(Trim(raw)), Suffix) <==> Format(raw).value == Prepare(Trim(raw))
  {
    var u := Prepare(Trim(raw));
    if !HasSuffix(u, Suffix) {
      assert |Format(raw).value| != |u|;
    }
  }

  /** Every canonical key is a fixed point of the normaliser. */
  lemma FormatFixesCanonical(k: string)
    requires IsCanonical(k)
    ensures Format(k) == Success(k)
  {
    assert k[|k| - 1] == Suffix[3];
    TrimOfTrimmed(k);
    assert Prepare(k) == k;
  }

  /** The normaliser is idempotent on its own output. */
  lemma FormatIdempotent(raw: string)
    requires Format(raw).Success?
    ensures Format(Format(raw).value) == Format(raw)
  {
    FormatFixesCanonical(Format(raw).value);
  }

  /** Input that is empty or only white space is rejected, and so is input
      whose trimmed text holds any character other than a Latin letter,
      an underscore or a space (a digit or punctuation, say). */
  lemma FormatRejects(raw: string, i: nat)
    requires AllSpace(raw) || (i < |Trim(raw)| && !IsKeyInputChar(Trim(raw)[i]))
    ensures Format(raw) == Failure(InvalidCharacters)
  {
    TrimEmptyIff(raw);
  }

  /** The worked example: spaces inside become underscores and the suffix
      is added. */
  lemma FormatExampleSpaces()
    ensures Format(" db password ") == Success("DB_PASSWORD_KEY")
  {
    TrimExample();
    FormatOfTrimmedExample(" db password ");
  }

  lemma TrimExample()
    ensures Trim(" db password ") == "db password"
  {
    TrimUnique(" ", "db password", " ");
    var s := " " + "db password" + " ";
    assert forall i :: 0 <= i < 13 ==> s[i] == " db password "[i];
  }

  lemma PrepareExample()
    ensures Prepare("db password") == "DB_PASSWORD"
  {
    var u := Prepare("db password");
    assert forall i :: 0 <= i < 11 ==> u[i] == "DB_PASSWORD"[i];
  }

  lemma FormatOfTrimmedExample(raw: string)
    requires Trim(raw) == "db password"
    ensures Format(raw) == Success("DB_PASSWORD_KEY")
  {
    PrepareExample();
    var u := "DB_PASSWORD";
    assert AllKeyChars(u);
    assert !HasSuffix(u, Suffix) by {
      assert u[|u| - 4] != Suffix[0];
    }
    assert u + Suffix == "DB_PASSWORD_KEY";
  }

  /** A key typed with the suffix already present keeps a single suffix. */
  lemma FormatExampleSuffixPresent()
    ensures Format("already_KEY") == Success("ALREADY_KEY")
  {
    TrimOfTrimmed("already_KEY");
    assert Prepare("already_KEY") == "ALREADY_KEY";
  }

  /** "KEY" alone does not end in "_KEY", so the suffix is still added. */
  lemma FormatExampleBareKey()
    ensures Format("key") == Success("KEY_KEY")
  {
    TrimOfTrimmed("key");
    assert Prepare("key") == "KEY";
    assert "KEY" + Suffix == "KEY_KEY";
  }
}
