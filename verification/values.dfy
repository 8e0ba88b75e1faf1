/** The value validator (validateValue in main.go): trims the typed value
    and refuses it when it holds a Cyrillic letter. */
module ValueCheck {
  import opened Wrappers
  import opened Text

  datatype ValueError = ForbiddenScript

  /** The character class [а-яА-ЯёЁ]: the basic Russian lower and upper case
      ranges plus the two letters io that lie outside them. */
  predicate IsCyrillic(c: char) {
    || ('\U{0430}' <= c <= '\U{044F}')
    || ('\U{0410}' <= c <= '\U{042F}')
    || c == '\U{0451}'
    || c == '\U{0401}'
  }

  predicate HasCyrillic(s: string) {
    exists i :: 0 <= i < |s| && IsCyrillic(s[i])
  }

  /** validateValue. It accepts exactly the inputs with no Cyrillic letter
      anywhere (white space is never Cyrillic, so trimming cannot hide or
      remove one), and an accepted value is the trimmed input with no
      other change. */
  function Validate(raw: string): (r: Result<string, ValueError>)
    ensures r.Success? <==> !HasCyrillic(raw)
    ensures r.Success? ==> IsTrimmed(r.value) && !HasCyrillic(r.value)
    ensures r.Success? ==> r.value == Trim(raw)
  {
    var t := Trim(raw);
    TrimKeepsCyrillic(raw);
    if HasCyrillic(t) then Failure(ForbiddenScript) else Success(t)
  }

  /** Trimming neither adds nor removes Cyrillic letters. */
  lemma TrimKeepsCyrillic(s: string)
    ensures HasCyrillic(Trim(s)) <==> HasCyrillic(s)
  {
    var t := Trim(s);
    if HasCyrillic(s) {
      var i :| 0 <= i < |s| && IsCyrillic(s[i]);
      TrimKeepsNonSpace(s, s[i]);
      var j :| 0 <= j < |t| && t[j] == s[i];
    }
    if HasCyrillic(t) {
      var j :| 0 <= j < |t| && IsCyrillic(t[j]);
      TrimSubset(s, t[j]);
      var i :| 0 <= i < |s| && s[i] == t[j];
    }
  }

  /** Validation is idempotent: an accepted value is accepted again as it is. */
  lemma ValidateIdempotent(raw: string)
    requires Validate(raw).Success?
    ensures Validate(Validate(raw).value) == Validate(raw)
  {
    TrimOfTrimmed(Validate(raw).value);
  }

  /** A Cyrillic word is refused. */
  lemma ValidateExampleCyrillic()
    ensures Validate("\U{043F}\U{0430}\U{0440}\U{043E}\U{043B}\U{044C}") == Failure(ForbiddenScript)
  {
    var s := "\U{043F}\U{0430}\U{0440}\U{043E}\U{043B}\U{044C}";
    assert IsCyrillic(s[0]);
  }

  /** Latin letters and digits pass, with the surrounding spaces trimmed. */
  lemma ValidateExampleLatin()
    ensures Validate(" secret123 ") == Success("secret123")
  {
    TrimUnique(" ", "secret123", " ");
    var s := " " + "secret123" + " ";
    assert forall i :: 0 <= i < 11 ==> s[i] == " secret123 "[i];
    assert s == " secret123 ";
    assert !HasCyrillic(" secret123 ");
  }
}
