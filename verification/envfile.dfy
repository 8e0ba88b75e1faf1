/** The `.env` file format: reading a file's text into a store
    (readEnvFileToMap in main.go) and writing a store back as text
    (writeEnvMap). A store is an unordered map from key to value; a file
    is a list of `KEY=VALUE` lines. */
module EnvFile {
  import opened Wrappers
  import opened Text

  type Store = map<string, string>

  /** One key-value pair, as the writer emits it. */
  type Entry = (string, string)

  // Reading a file: the scanner's lines, one entry per line, last one wins.

  /** Drops one carriage return at the end of a line, as bufio.ScanLines
      does. */
  function DropCR(line: string): (r: string)
    ensures forall c :: c in r ==> c in line
  {
    if |line| > 0 && line[|line| - 1] == '\r' then line[..|line| - 1] else line
  }

  /** The lines bufio.Scanner yields with its default split function:
      the text cut at each newline, without an empty piece after a final
      newline, each line without a trailing carriage return. */
  function ScanLines(text: string): (lines: seq<string>)
    ensures forall i :: 0 <= i < |lines| ==> '\n' !in lines[i]
  {
    var pieces := Split(text, '\n');
    var kept := if pieces[|pieces| - 1] == "" then pieces[..|pieces| - 1] else pieces;
    seq(|kept|, i requires 0 <= i < |kept| => DropCR(kept[i]))
  }

  /** The loop body of readEnvFileToMap for one line: a blank line, a
      line starting with '#', and a line without '=' give nothing;
      otherwise the key is the trimmed text before the first '=' and the
      value the trimmed text after it. */
  function ParseLine(line: string): (r: Option<Entry>)
    ensures r.None? <==> Trim(line) == "" || HasPrefix(line, "#") || '=' !in line
    ensures r.Some? ==> IsTrimmed(r.value.0) && IsTrimmed(r.value.1) && '=' !in r.value.0
    ensures r.Some? && '\n' !in line ==> '\n' !in r.value.0 && '\n' !in r.value.1
  {
    if Trim(line) == "" || HasPrefix(line, "#") then None
    else match IndexOf(line, '=')
      case None => None
      case Some(i) =>
        var k := Trim(line[..i]);
        var v := Trim(line[i + 1..]);
        assert '=' !in k by {
          if '=' in k { TrimSubset(line[..i], '='); }
        }
        assert '\n' !in line ==> '\n' !in k && '\n' !in v by {
          if '\n' in k { TrimSubset(line[..i], '\n'); }
          if '\n' in v { TrimSubset(line[i + 1..], '\n'); }
        }
        Some((k, v))
  }

  /** A parsed line carries key `k`. */
  predicate HasKey(item: Option<Entry>, k: string) {
    item.Some? && item.value.0 == k
  }

  /** The line defines key `k`. */
  predicate Defines(line: string, k: string) {
    HasKey(ParseLine(line), k)
  }

  /** The entries the lines define, line by line. */
  function ParsedLines(lines: seq<string>): (items: seq<Option<Entry>>)
    ensures |items| == |lines|
    ensures forall i :: 0 <= i < |lines| ==> items[i] == ParseLine(lines[i])
  {
    seq(|lines|, i requires 0 <= i < |lines| => ParseLine(lines[i]))
  }

  /** The store built from parsed lines taken one after the other, a later
      entry overwriting the value an earlier one gave the same key. */
  function Collect(items: seq<Option<Entry>>): Store {
    if |items| == 0 then map[]
    else
      var m := Collect(items[..|items| - 1]);
      match items[|items| - 1]
      case None => m
      case Some(e) => m[e.0 := e.1]
  }

  /** The store read from a list of lines. */
  function ParseLines(lines: seq<string>): Store {
    Collect(ParsedLines(lines))
  }

  /** readEnvFileToMap once the file's text is in hand. */
  function Parse(text: string): Store {
    ParseLines(ScanLines(text))
  }

  // Writing a store: one `k=v` line per entry, each ended by a newline.

  /** fmt.Sprintf("%s=%s", k, v) */
  function EntryLine(e: Entry): string {
    e.0 + "=" + e.1
  }

  function EntryLines(es: seq<Entry>): (lines: seq<string>)
    ensures |lines| == |es|
    ensures forall i :: 0 <= i < |es| ==> lines[i] == EntryLine(es[i])
  {
    seq(|es|, i requires 0 <= i < |es| => EntryLine(es[i]))
  }

  /** writeEnvMap's file contents for the entries in the order the map
      iteration produced them: the lines joined by newlines, plus a final
      newline. */
  function Render(es: seq<Entry>): string {
    Join(EntryLines(es), '\n') + "\n"
  }

  /** The map a list of entries describes (a later entry wins). */
  function MapOf(es: seq<Entry>): (m: Store)
  {
    if |es| == 0 then map[]
    else MapOf(es[..|es| - 1])[es[|es| - 1].0 := es[|es| - 1].1]
  }

  predicate NoDupKeys(es: seq<Entry>) {
    forall i, j :: 0 <= i < j < |es| ==> es[i].0 != es[j].0
  }

  /** `es` lists every entry of `m` exactly once, in some order: what one
      `range` over a Go map yields. */
  predicate IsListing(es: seq<Entry>, m: Store) {
    NoDupKeys(es) && MapOf(es) == m
  }

  /** A key and value that survive being written as one line: both are
      trimmed and free of newlines, and the key holds no '='. */
  predicate WellFormedEntry(k: string, v: string) {
    IsTrimmed(k) && '=' !in k && '\n' !in k && IsTrimmed(v) && '\n' !in v
  }

  predicate WellFormedStore(m: Store) {
    forall k :: k in m ==> WellFormedEntry(k, m[k])
  }

  /** A key whose line, once written, reads as a comment. */
  predicate IsCommentKey(k: string) {
    HasPrefix(k, "#")
  }

  /** The part of a store that survives a write and a read. */
  function Visible(m: Store): (r: Store)
    ensures forall k :: k in r <==> k in m && !IsCommentKey(k)
    ensures forall k :: k in r ==> r[k] == m[k]
  {
    map k | k in m && !IsCommentKey(k) :: m[k]
  }

  // What reading promises.

  /** A line made of a text without '=', an '=' and any rest: unless the
      text starts with '#' the line defines the trimmed text as key and the
      trimmed rest (which may hold more '=') as value. */
  lemma ParseLineSplit(a: string, b: string)
    requires '=' !in a
    ensures ParseLine(a + "=" + b) == if IsCommentKey(a) then None else Some((Trim(a), Trim(b)))
  {
    var line := a + "=" + b;
    assert line[|a|] == '=';
    TrimEmptyIff(line);
    assert HasPrefix(line, "#") <==> IsCommentKey(a) by {
      if |a| > 0 { assert line[0] == a[0]; } else { assert line[0] == '='; }
    }
    var idx := IndexOf(line, '=');
    assert forall j :: 0 <= j < |a| ==> line[j] == a[j];
    assert forall j :: 0 <= j < idx.value ==> line[..idx.value][j] == line[j];
    assert idx.value == |a|;
    assert line[..|a|] == a;
    assert line[|a| + 1..] == b;
  }

  /** A key is in the collected store exactly when some item carries it. */
  lemma {:induction false} CollectKeys(items: seq<Option<Entry>>, k: string)
    ensures k in Collect(items) <==> exists i :: 0 <= i < |items| && HasKey(items[i], k)
  {
    if |items| > 0 {
      var n := |items| - 1;
      var front := items[..n];
      CollectKeys(front, k);
      assert forall i :: 0 <= i < n ==> front[i] == items[i];
      if k in Collect(items) && !HasKey(items[n], k) {
        var i :| 0 <= i < n && HasKey(front[i], k);
        assert HasKey(items[i], k);
      }
      if exists i :: 0 <= i < |items| && HasKey(items[i], k) {
        var i :| 0 <= i < |items| && HasKey(items[i], k);
        if i < n {
          assert HasKey(front[i], k);
        }
      }
    }
  }

  /** The value collected for a key is the one of the last item carrying it. */
  lemma {:induction false} CollectLastWins(items: seq<Option<Entry>>, k: string)
    requires k in Collect(items)
    ensures exists i :: 0 <= i < |items| && items[i] == Some((k, Collect(items)[k])) &&
                        forall j :: i < j < |items| ==> !HasKey(items[j], k)
  {
    var n := |items| - 1;
    var front := items[..n];
    if HasKey(items[n], k) {
      assert items[n] == Some((k, Collect(items)[k]));
    } else {
      CollectLastWins(front, k);
      var i :| 0 <= i < n && front[i] == Some((k, Collect(front)[k])) &&
        forall j :: i < j < n ==> !HasKey(front[j], k);
      assert front[i] == items[i];
      assert forall j :: i < j < n ==> front[j] == items[j];
    }
  }

  /** Last line wins: a key is in the parsed store exactly when some line
      defines it, and its value is the one given by the last line that
      defines it. */
  lemma ParseLastWins(text: string, k: string)
    ensures var lines := ScanLines(text);
      k in Parse(text) <==> exists i :: 0 <= i < |lines| && Defines(lines[i], k)
    ensures var lines := ScanLines(text);
      k in Parse(text) ==>
        exists i :: 0 <= i < |lines| && ParseLine(lines[i]) == Some((k, Parse(text)[k])) &&
          forall j :: i < j < |lines| ==> !Defines(lines[j], k)
  {
    var lines := ScanLines(text);
    var items := ParsedLines(lines);
    CollectKeys(items, k);
    assert forall i :: 0 <= i < |lines| ==> (HasKey(items[i], k) <==> Defines(lines[i], k));
    if k in ParseLines(lines) {
      CollectLastWins(items, k);
    }
  }

  /** Collecting well formed entries gives a well formed store. */
  lemma {:induction false} CollectWellFormed(items: seq<Option<Entry>>)
    requires forall i :: 0 <= i < |items| && items[i].Some? ==> WellFormedEntry(items[i].value.0, items[i].value.1)
    ensures WellFormedStore(Collect(items))
  {
    if |items| > 0 {
      var front := items[..|items| - 1];
      assert forall i :: 0 <= i < |front| ==> front[i] == items[i];
      CollectWellFormed(front);
    }
  }

  /** Whatever the file holds, the store read from it is well formed. */
  lemma ParseLinesWellFormed(lines: seq<string>)
    requires forall i :: 0 <= i < |lines| ==> '\n' !in lines[i]
    ensures WellFormedStore(ParseLines(lines))
  {
    var items := ParsedLines(lines);
    forall i | 0 <= i < |items| && items[i].Some?
      ensures WellFormedEntry(items[i].value.0, items[i].value.1)
    {
      assert items[i] == ParseLine(lines[i]);
    }
    CollectWellFormed(items);
  }

  lemma ParseWellFormed(text: string)
    ensures WellFormedStore(Parse(text))
  {
    ParseLinesWellFormed(ScanLines(text));
  }

  // What writing promises, and reading back what was written.

  /** Cutting a newline-terminated join at its newlines gives the joined
      lines and one empty piece after the last newline. */
  lemma SplitTerminated(lines: seq<string>)
    requires |lines| >= 1
    requires forall i :: 0 <= i < |lines| ==> '\n' !in lines[i]
    ensures Split(Join(lines, '\n') + "\n", '\n') == lines + [""]
  {
    JoinAppendSep(lines, '\n');
    var all := lines + [""];
    assert forall i :: 0 <= i < |all| ==> '\n' !in all[i];
    SplitJoin(all, '\n');
  }

  /** The scanner gives back exactly the lines the writer joined, provided
      none holds a newline or ends in a carriage return. */
  lemma ScanLinesOfJoined(lines: seq<string>)
    requires |lines| >= 1
    requires forall i :: 0 <= i < |lines| ==> '\n' !in lines[i]
    requires forall i :: 0 <= i < |lines| ==> |lines[i]| == 0 || lines[i][|lines[i]| - 1] != '\r'
    ensures ScanLines(Join(lines, '\n') + "\n") == lines
  {
    var text := Join(lines, '\n') + "\n";
    SplitTerminated(lines);
    var pieces := Split(text, '\n');
    assert pieces[|pieces| - 1] == "";
    assert pieces[..|pieces| - 1] == lines;
    var r := ScanLines(text);
    assert |r| == |lines|;
    forall i | 0 <= i < |lines|
      ensures r[i] == lines[i]
    {
      assert r[i] == DropCR(lines[i]);
    }
  }

  /** A written line never ends in a carriage return: the value is trimmed,
      and an empty value leaves the '=' last. */
  lemma EntryLineShape(e: Entry)
    requires WellFormedEntry(e.0, e.1)
    ensures '\n' !in EntryLine(e)
    ensures EntryLine(e)[|EntryLine(e)| - 1] != '\r'
  {
    var l := EntryLine(e);
    if |e.1| > 0 {
      assert l[|l| - 1] == e.1[|e.1| - 1];
    }
  }

  /** One line per entry: an empty store is written as a lone newline,
      any other as the entries' `k=v` lines. */
  lemma RenderLines(es: seq<Entry>)
    requires forall i :: 0 <= i < |es| ==> WellFormedEntry(es[i].0, es[i].1)
    ensures |es| == 0 ==> Render(es) == "\n"
    ensures |es| > 0 ==> ScanLines(Render(es)) == EntryLines(es)
  {
    if |es| > 0 {
      var lines := EntryLines(es);
      forall i | 0 <= i < |lines|
        ensures '\n' !in lines[i] && lines[i][|lines[i]| - 1] != '\r'
      {
        EntryLineShape(es[i]);
      }
      ScanLinesOfJoined(lines);
    }
  }

  /** A store with a key set, seen after a write and a read. */
  lemma VisibleUpdate(m: Store, k: string, v: string)
    ensures Visible(m[k := v]) == if IsCommentKey(k) then Visible(m) else Visible(m)[k := v]
  {
  }

  /** What reading a written entry gives: nothing for a key that looks
      like a comment, the entry itself otherwise. */
  function ReadBack(e: Entry): Option<Entry> {
    if IsCommentKey(e.0) then None else Some(e)
  }

  /** Collecting the read-back entries gives the map the entries describe,
      minus the keys that look like comments. */
  lemma {:induction false} CollectReadBack(es: seq<Entry>)
    ensures Collect(seq(|es|, i requires 0 <= i < |es| => ReadBack(es[i]))) == Visible(MapOf(es))
  {
    if |es| > 0 {
      var n := |es| - 1;
      var front := es[..n];
      var items := seq(|es|, i requires 0 <= i < |es| => ReadBack(es[i]));
      var frontItems := seq(|front|, i requires 0 <= i < |front| => ReadBack(front[i]));
      assert items[..n] == frontItems;
      CollectReadBack(front);
      VisibleUpdate(MapOf(front), es[n].0, es[n].1);
    }
  }

  /** Reading the written lines of any entry list gives the map the list
      describes, minus the keys that look like comments once written. */
  lemma ParseEntryLines(es: seq<Entry>)
    requires forall i :: 0 <= i < |es| ==> WellFormedEntry(es[i].0, es[i].1)
    ensures ParseLines(EntryLines(es)) == Visible(MapOf(es))
  {
    var items := ParsedLines(EntryLines(es));
    var back := seq(|es|, i requires 0 <= i < |es| => ReadBack(es[i]));
    ParseEntryLineEach(es);
    assert items == back;
    CollectReadBack(es);
  }

  lemma ParseEntryLineEach(es: seq<Entry>)
    requires forall i :: 0 <= i < |es| ==> WellFormedEntry(es[i].0, es[i].1)
    ensures forall i :: 0 <= i < |es| ==> ParseLine(EntryLine(es[i])) == ReadBack(es[i])
  {
    forall i | 0 <= i < |es| {
      ParseEntryLine(es[i]);
    }
  }

  /** A written well formed entry's line reads back as the entry, unless
      its key looks like a comment. */
  lemma ParseEntryLine(e: Entry)
    requires WellFormedEntry(e.0, e.1)
    ensures ParseLine(EntryLine(e)) == ReadBack(e)
  {
    ParseLineSplit(e.0, e.1);
    TrimOfTrimmed(e.0);
    TrimOfTrimmed(e.1);
  }

  /** The written text is every entry's line followed by a newline, and a
      lone newline when there are no entries. */
  lemma RenderTerminated(es: seq<Entry>)
    ensures |es| == 0 ==> Render(es) == "\n"
    ensures |es| > 0 ==> Render(es) == Terminate(EntryLines(es), '\n')
  {
    if |es| > 0 {
      JoinTerminate(EntryLines(es), '\n');
    }
  }

  /** The file an empty store is written to reads back as empty. */
  lemma ParseLoneNewline()
    ensures Parse("\n") == map[]
  {
    assert IndexOf("\n", '\n') == Some(0);
    var pieces := Split("\n", '\n');
    assert pieces == ["", ""];
    assert pieces[..1] == [""];
    assert DropCR("") == "";
    assert ScanLines("\n") == [""];
    TrimEmptyIff("");
    assert ParseLine("") == None;
    var items: seq<Option<Entry>> := [None];
    assert ParsedLines([""]) == items;
    assert items[..0] == [];
  }

  /** Reading what was written gives back the written map, minus the keys
      that look like comments once written. */
  lemma ParseRender(es: seq<Entry>)
    requires forall i :: 0 <= i < |es| ==> WellFormedEntry(es[i].0, es[i].1)
    ensures Parse(Render(es)) == Visible(MapOf(es))
  {
    RenderLines(es);
    if |es| == 0 {
      ParseLoneNewline();
    } else {
      ParseEntryLines(es);
    }
  }

  /** A key no entry carries is not in the map the entries describe. */
  lemma {:induction false} MapOfMissing(es: seq<Entry>, k: string)
    requires forall i :: 0 <= i < |es| ==> es[i].0 != k
    ensures k !in MapOf(es)
  {
    if |es| > 0 {
      MapOfMissing(es[..|es| - 1], k);
    }
  }

  /** In a listing every entry is the map's own, and there are as many
      entries as keys. */
  lemma {:induction false} ListingEntries(es: seq<Entry>, m: Store)
    requires IsListing(es, m)
    ensures forall i :: 0 <= i < |es| ==> es[i].0 in m && m[es[i].0] == es[i].1
    ensures |es| == |m|
  {
    if |es| > 0 {
      var n := |es| - 1;
      var front := es[..n];
      assert NoDupKeys(front);
      ListingEntries(front, MapOf(front));
      MapOfMissing(front, es[n].0);
      assert m == MapOf(front)[es[n].0 := es[n].1];
      forall i | 0 <= i < |es|
        ensures es[i].0 in m && m[es[i].0] == es[i].1
      {
        if i < n {
          assert front[i] == es[i];
        }
      }
    }
  }

  /** The round trip: for every order in which the writer may list a well
      formed store, reading the written file gives back the store, except
      for keys that start with '#'; a store without such keys comes back
      whole. */
  lemma RoundTrip(m: Store, es: seq<Entry>)
    requires WellFormedStore(m)
    requires IsListing(es, m)
    ensures Parse(Render(es)) == Visible(m)
    ensures (forall k :: k in m ==> !IsCommentKey(k)) ==> Parse(Render(es)) == m
  {
    ListingEntries(es, m);
    ParseRender(es);
  }

  /** A key read from an indented comment-like line does not survive a
      rewrite: a file holding the line " #a=1" reads as key "#a" with value
      "1", which is written as "#a=1" and then read back as a comment. */
  lemma CommentKeyLost(k: string, v: string)
    requires WellFormedEntry(k, v) && IsCommentKey(k)
    ensures Parse(" " + k + "=" + v + "\n") == map[k := v]
    ensures Parse(Render([(k, v)])) == map[]
  {
    ParseIndentedLine(k, v);
    var es := [(k, v)];
    ParseRender(es);
    assert MapOf(es) == MapOf([])[k := v];
  }

  /** A file of one indented line defines the trimmed key, whatever it
      starts with. */
  lemma ParseIndentedLine(k: string, v: string)
    requires WellFormedEntry(k, v)
    ensures Parse(" " + k + "=" + v + "\n") == map[k := v]
  {
    var line := " " + k + "=" + v;
    ParseIndentedLineEntry(k, v);
    assert '\n' !in line;
    assert line[|line| - 1] != '\r' by {
      if |v| > 0 { assert line[|line| - 1] == v[|v| - 1]; }
    }
    ScanLinesOfJoined([line]);
    assert Join([line], '\n') == line;
    var text := line + "\n";
    assert ScanLines(text) == [line];
    var items := ParsedLines([line]);
    assert items == [Some((k, v))];
    assert items[..0] == [];
    assert Collect(items) == Collect(items[..0])[k := v];
    assert Parse(text) == map[k := v];
  }

  lemma ParseIndentedLineEntry(k: string, v: string)
    requires WellFormedEntry(k, v)
    ensures ParseLine(" " + k + "=" + v) == Some((k, v))
  {
    assert " " + k + "=" + v == (" " + k) + "=" + v;
    assert (" " + k)[0] == ' ';
    assert '=' !in " " + k;
    ParseLineSplit(" " + k, v);
    TrimUnique(" ", k, "");
    assert " " + k + "" == " " + k;
    TrimOfTrimmed(v);
  }

  // The writer, with the map's iteration order left open.

  /** writeEnvMap's text: the map's entries are visited in an order the
      model leaves open (Go's map iteration order is unspecified), one
      `k=v` line each, joined and terminated by newlines. For a well formed
      store, reading the text back gives the store minus its comment-like
      keys. */
  method Serialise(m: Store) returns (es: seq<Entry>, text: string)
    ensures IsListing(es, m)
    ensures |es| == |m|
    ensures text == Render(es)
    ensures WellFormedStore(m) ==> Parse(text) == Visible(m)
  {
    es := [];
    var left := m.Keys;
    while left != {}
      invariant left <= m.Keys
      invariant NoDupKeys(es)
      invariant forall i :: 0 <= i < |es| ==> es[i].0 !in left
      invariant MapOf(es) == map k | k in m && k !in left :: m[k]
      decreases left
    {
      var k :| k in left;
      es := es + [(k, m[k])];
      left := left - {k};
    }
    assert MapOf(es) == m;
    ListingEntries(es, m);
    text := Render(es);
    if WellFormedStore(m) {
      RoundTrip(m, es);
    }
  }
}
