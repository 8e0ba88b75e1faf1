/** The Go standard-library string operations the tool relies on, stated on
    strings as sequences of Unicode scalar values: white-space trimming
    (strings.TrimSpace), ASCII case mapping, prefix and suffix tests, the
    first occurrence of a character, and splitting at / joining with a
    separator character. */
module Text {
  import opened Wrappers

  /** unicode.IsSpace: the Latin-1 white space characters and every other
      code point with the Unicode White_Space property. */
  predicate IsSpace(c: char) {
    || c == '\t' || c == '\n' || c == '\U{000B}' || c == '\U{000C}' || c == '\r' || c == ' '
    || c == '\U{0085}' || c == '\U{00A0}' || c == '\U{1680}'
    || ('\U{2000}' <= c <= '\U{200A}')
    || c == '\U{2028}' || c == '\U{2029}' || c == '\U{202F}' || c == '\U{205F}' || c == '\U{3000}'
  }

  predicate AllSpace(s: string) {
    forall i :: 0 <= i < |s| ==> IsSpace(s[i])
  }

  /** Neither end of `s` is white space. */
  predicate IsTrimmed(s: string) {
    |s| == 0 || (!IsSpace(s[0]) && !IsSpace(s[|s| - 1]))
  }

  predicate HasPrefix(s: string, p: string) {
    |p| <= |s| && s[..|p|] == p
  }

  predicate HasSuffix(s: string, p: string) {
    |p| <= |s| && s[|s| - |p|..] == p
  }

  /** strings.TrimSpace: white space is removed from both ends until
      neither end is white space. */
  function Trim(s: string): (r: string)
    ensures IsTrimmed(r)
    ensures |r| <= |s|
    decreases |s|
  {
    if |s| > 0 && IsSpace(s[0]) then Trim(s[1..])
    else if |s| > 0 && IsSpace(s[|s| - 1]) then Trim(s[..|s| - 1])
    else s
  }

  /** Trimming is determined by what it promises: whatever white space
      surrounds a trimmed string, trimming gives that string back. */
  lemma {:induction false} TrimUnique(p: string, r: string, q: string)
    requires AllSpace(p) && AllSpace(q) && IsTrimmed(r)
    ensures Trim(p + r + q) == r
    decreases |p| + |q|
  {
    var s := p + r + q;
    if |p| > 0 {
      assert s[0] == p[0];
      assert s[1..] == p[1..] + r + q;
      TrimUnique(p[1..], r, q);
    } else if |r| == 0 && |q| > 0 {
      assert s == q;
      assert s[1..] == p + r + q[1..];
      TrimUnique(p, r, q[1..]);
    } else if |q| > 0 {
      assert s[0] == r[0];
      assert s[|s| - 1] == q[|q| - 1];
      assert s[..|s| - 1] == p + r + q[..|q| - 1];
      TrimUnique(p, r, q[..|q| - 1]);
    } else {
      assert s == r;
    }
  }

  lemma TrimOfTrimmed(s: string)
    requires IsTrimmed(s)
    ensures Trim(s) == s
  {
    TrimUnique("", s, "");
    assert "" + s + "" == s;
  }

  /** A string trims to nothing exactly when it is all white space. */
  lemma {:induction false} TrimEmptyIff(s: string)
    ensures Trim(s) == "" <==> AllSpace(s)
    decreases |s|
  {
    if |s| > 0 && IsSpace(s[0]) {
      TrimEmptyIff(s[1..]);
      assert AllSpace(s) <==> AllSpace(s[1..]) by {
        assert forall i :: 0 < i < |s| ==> s[i] == s[1..][i - 1];
      }
    } else if |s| > 0 && IsSpace(s[|s| - 1]) {
      TrimEmptyIff(s[..|s| - 1]);
      assert AllSpace(s) <==> AllSpace(s[..|s| - 1]) by {
        assert forall i :: 0 <= i < |s| - 1 ==> s[i] == s[..|s| - 1][i];
      }
    }
  }

  /** Every character of the trimmed string occurs in the original. */
  lemma {:induction false} TrimSubset(s: string, c: char)
    requires c in Trim(s)
    ensures c in s
    decreases |s|
  {
    if |s| > 0 && IsSpace(s[0]) {
      TrimSubset(s[1..], c);
    } else if |s| > 0 && IsSpace(s[|s| - 1]) {
      TrimSubset(s[..|s| - 1], c);
    }
  }

  /** Every character of the original that is not white space survives
      trimming. */
  lemma {:induction false} TrimKeepsNonSpace(s: string, c: char)
    requires c in s && !IsSpace(c)
    ensures c in Trim(s)
    decreases |s|
  {
    if |s| > 0 && IsSpace(s[0]) {
      assert c in s[1..] by {
        var i :| 0 <= i < |s| && s[i] == c;
        assert s[1..][i - 1] == c;
      }
      TrimKeepsNonSpace(s[1..], c);
    } else if |s| > 0 && IsSpace(s[|s| - 1]) {
      assert c in s[..|s| - 1] by {
        var i :| 0 <= i < |s| && s[i] == c;
        assert s[..|s| - 1][i] == c;
      }
      TrimKeepsNonSpace(s[..|s| - 1], c);
    }
  }

  /** ASCII-only upper and lower case mapping. */
  function UpperChar(c: char): char {
    if 'a' <= c <= 'z' then (c as int - 32) as char else c
  }

  function LowerChar(c: char): char {
    if 'A' <= c <= 'Z' then (c as int + 32) as char else c
  }

  function Upper(s: string): (r: string)
    ensures |r| == |s|
    ensures forall i :: 0 <= i < |s| ==> r[i] == UpperChar(s[i])
  {
    seq(|s|, i requires 0 <= i < |s| => UpperChar(s[i]))
  }

  function Lower(s: string): (r: string)
    ensures |r| == |s|
    ensures forall i :: 0 <= i < |s| ==> r[i] == LowerChar(s[i])
  {
    seq(|s|, i requires 0 <= i < |s| => LowerChar(s[i]))
  }

  /** Upper-casing leaves no lower-case ASCII letter, keeps every other
      character, and loses nothing that lower-casing would restore. */
  lemma UpperIsUpper(s: string)
    ensures forall i :: 0 <= i < |s| ==> !('a' <= Upper(s)[i] <= 'z')
    ensures forall i :: 0 <= i < |s| && !('a' <= s[i] <= 'z') ==> Upper(s)[i] == s[i]
    ensures Lower(Upper(s)) == Lower(s)
  {
  }

  /** Lower-casing leaves no upper-case ASCII letter, keeps every other
      character, and loses nothing that upper-casing would restore. */
  lemma LowerIsLower(s: string)
    ensures forall i :: 0 <= i < |s| ==> !('A' <= Lower(s)[i] <= 'Z')
    ensures forall i :: 0 <= i < |s| && !('A' <= s[i] <= 'Z') ==> Lower(s)[i] == s[i]
    ensures Upper(Lower(s)) == Upper(s)
  {
  }

  /** Position of the first occurrence of `c` in `s`, if any. */
  function IndexOf(s: string, c: char): (r: Option<nat>)
    ensures r.None? <==> c !in s
    ensures r.Some? ==> r.value < |s| && s[r.value] == c && c !in s[..r.value]
  {
    if |s| == 0 then None
    else if s[0] == c then Some(0)
    else match IndexOf(s[1..], c)
      case None => None
      case Some(i) => assert s[1..][..i] == s[1..i + 1]; Some(i + 1)
  }

  /** strings.Join with a one-character separator. */
  function Join(parts: seq<string>, sep: char): string {
    if |parts| == 0 then ""
    else if |parts| == 1 then parts[0]
    else parts[0] + [sep] + Join(parts[1..], sep)
  }

  /** strings.Split with a one-character separator: the pieces between the
      separators, at least one of them. */
  function Split(s: string, sep: char): (parts: seq<string>)
    ensures |parts| >= 1
    ensures forall i :: 0 <= i < |parts| ==> sep !in parts[i]
    decreases |s|
  {
    match IndexOf(s, sep)
    case None => [s]
    case Some(i) => [s[..i]] + Split(s[i + 1..], sep)
  }

  /** Splitting undoes joining when no piece holds the separator. */
  lemma {:induction false} SplitJoin(parts: seq<string>, sep: char)
    requires |parts| >= 1
    requires forall i :: 0 <= i < |parts| ==> sep !in parts[i]
    ensures Split(Join(parts, sep), sep) == parts
  {
    if |parts| == 1 {
      assert sep !in parts[0];
    } else {
      var p := parts[0];
      var s := Join(parts, sep);
      var rest := Join(parts[1..], sep);
      assert s == p + [sep] + rest;
      assert s[|p|] == sep;
      assert s[..|p|] == p;
      var idx := IndexOf(s, sep);
      assert idx.Some?;
      assert forall j :: 0 <= j < |p| ==> s[j] == p[j];
      assert forall j :: 0 <= j < idx.value ==> s[..idx.value][j] == s[j];
      assert idx.value == |p|;
      assert s[|p| + 1..] == rest;
      SplitJoin(parts[1..], sep);
      assert parts == [p] + parts[1..];
    }
  }

  /** The pieces, each followed by the separator: the shape of a file
      whose every line ends in a newline. */
  function Terminate(parts: seq<string>, sep: char): string {
    if |parts| == 0 then ""
    else parts[0] + [sep] + Terminate(parts[1..], sep)
  }

  /** Joining at least one piece and appending one separator is the same as
      ending every piece with the separator. */
  lemma {:induction false} JoinTerminate(parts: seq<string>, sep: char)
    requires |parts| >= 1
    ensures Join(parts, sep) + [sep] == Terminate(parts, sep)
  {
    if |parts| == 1 {
      assert Terminate(parts[1..], sep) == "";
    } else {
      JoinTerminate(parts[1..], sep);
      assert Join(parts, sep) + [sep] == parts[0] + [sep] + (Join(parts[1..], sep) + [sep]);
    }
  }

  /** Appending a separator to a join is joining with one more, empty, piece. */
  lemma JoinAppendSep(parts: seq<string>, sep: char)
    requires |parts| >= 1
    ensures Join(parts, sep) + [sep] == Join(parts + [""], sep)
  {
    if |parts| == 1 {
      assert Join(parts + [""], sep) == parts[0] + [sep] + Join([""], sep);
    } else {
      assert (parts + [""])[1..] == parts[1..] + [""];
      JoinAppendSep(parts[1..], sep);
    }
  }
}
