/**
 * The stop-word store: a mutable set of lower-cased first tokens, filled line
 * by line from stop-word lists and queried by exact membership.
 */
module StopWords {
  import opened JavaStrings

  datatype Option<T> = None | Some(value: T)

  // ---------------------------------------------------------------------------
  // One line of a stop-word list
  // ---------------------------------------------------------------------------

  /**
   * What `load(Reader)` adds for one line: the line is trimmed and split on
   * `\s|\|`; when the split gives at least one word and the first word is not
   * blank after its own trim, that word lower-cased is the entry.
   */
  function LineEntry(line: string): Option<string> {
    var words := Split(Trim(line));
    if |words| > 0 && |Trim(words[0])| > 0 then Some(ToLower(words[0])) else None
  }

  /**
   * A word that can be an entry: non-empty, free of `\s` and `|`, starting with
   * a char above U+0020 and already lower-case.
   */
  predicate IsEntry(w: string) {
    w != [] && NoSeparator(w) && !IsTrimBlank(w[0]) && ToLower(w) == w
  }

  /**
   * The two-part condition of the line loop reduces to "the first token of the
   * trimmed line is non-empty", and the entry is that token lower-cased: the
   * prefix of the trimmed line before its first whitespace char or `|`.
   */
  lemma LineEntryIsFirstToken(line: string)
    ensures var t := FirstToken(Trim(line));
      LineEntry(line) == if t == [] then None else Some(ToLower(t))
  {
    var s := Trim(line);
    var t := FirstToken(s);
    var words := Split(s);
    TrimSpec(line);
    FirstTokenSpec(s);
    SplitSpec(s);
    if t != [] {
      assert t[0] == s[0];
      TrimSpec(t);
      assert Trim(t) != [];
    }
  }

  /** Every entry a line can give is a well-formed entry. */
  lemma LineEntryIsEntry(line: string, w: string)
    requires LineEntry(line) == Some(w)
    ensures IsEntry(w)
    ensures w == ToLower(FirstToken(Trim(line)))
  {
    LineEntryIsFirstToken(line);
    var s := Trim(line);
    var t := FirstToken(s);
    TrimSpec(line);
    FirstTokenSpec(s);
    assert t[0] == s[0];
    ToLowerShape(t);
    ToLowerIdempotent(t);
  }

  /**
   * Exactly the well-formed words are entries of some line; for the converse
   * direction the line `w + "|"` gives `w`.
   */
  lemma EntryCharacterization(w: string)
    ensures IsEntry(w) <==> exists line :: LineEntry(line) == Some(w)
  {
    if IsEntry(w) {
      var line := w + "|";
      TrimOfTrimmed(line);
      assert line[..|w|] == w && line[|w|] == '|';
      FirstTokenIs(line, |w|);
      LineEntryIsFirstToken(line);
      assert LineEntry(line) == Some(w);
    }
    if exists line :: LineEntry(line) == Some(w) {
      var line :| LineEntry(line) == Some(w);
      LineEntryIsEntry(line, w);
    }
  }

  /** A blank line, a whitespace-only line and one whose trimmed form starts with `|` add nothing. */
  lemma SkippedLines(line: string)
    requires Trim(line) == [] || Trim(line)[0] == '|'
    ensures LineEntry(line) == None
  {
    LineEntryIsFirstToken(line);
  }

  /**
   * Only the first token of a line is kept: a line that starts with a token
   * `w` (no leading blank, a non-blank last char, no separator), followed by a
   * separator and anything at all, gives `w` lower-cased.
   */
  lemma OnlyFirstToken(w: string, c: char, rest: string)
    requires w != [] && !IsTrimBlank(w[0]) && !IsTrimBlank(w[|w| - 1]) && NoSeparator(w)
    requires IsSeparator(c)
    ensures LineEntry(w + [c] + rest) == Some(ToLower(w))
  {
    var line := w + [c] + rest;
    TrimSpec(line);
    var s := Trim(line);
    assert |TrimStart(line)| == |line| by {
      assert line[0] == w[0];
    }
    assert |s| >= |w| by {
      assert line[|w| - 1] == w[|w| - 1];
    }
    assert s[..|w|] == w;
    FirstTokenIs(s, |w|);
    LineEntryIsFirstToken(line);
  }

  /** A line that is a single token, with no blank at either end, gives that token lower-cased. */
  lemma SingleTokenLine(w: string)
    requires w != [] && !IsTrimBlank(w[0]) && !IsTrimBlank(w[|w| - 1]) && NoSeparator(w)
    ensures LineEntry(w) == Some(ToLower(w))
  {
    TrimOfTrimmed(w);
    FirstTokenIs(w, |w|);
    assert w[..|w|] == w;
    LineEntryIsFirstToken(w);
  }

  // The examples below take the line as a parameter fixed by `requires`: stated on
  // the literal itself, the verifier unfolds the whole line rule on it and runs out.

  /** `"foo bar | baz"`, `"foo|bar"`, `"foo |bar"` and `"foo| bar"` all give just `"foo"`. */
  lemma FirstTokenExamples(line: string)
    requires line in {"foo bar | baz", "foo|bar", "foo |bar", "foo| bar"}
    ensures LineEntry(line) == Some("foo")
  {
    assert ToLower("foo") == "foo";
    var c := line[3];
    var rest := line[4..];
    assert line == "foo" + [c] + rest;
    OnlyFirstToken("foo", c, rest);
  }

  /** `"Hello"` gives `"hello"`. */
  lemma LowerCaseExample(line: string)
    requires line == "Hello"
    ensures LineEntry(line) == Some("hello")
  {
    SingleTokenLine(line);
    ToLowerSpec(line);
    assert ToLower(line) == "hello";
  }

  /**
   * The ideographic space U+3000 is whitespace to Unicode but above U+0020 and
   * not `\s`, so a line holding only it is stored as an entry.
   */
  lemma IdeographicSpaceIsEntry(line: string)
    requires line == "\U{3000}"
    ensures LineEntry(line) == Some(line) && IsEntry(line)
  {
    SingleTokenLine(line);
    ToLowerSpec(line);
    assert ToLower(line) == line;
  }

  /** The empty line, a line of spaces and a comment line give nothing. */
  lemma SkippedLineExamples(line: string)
    requires line in {"", "   ", "|comment"}
    ensures LineEntry(line) == None
  {
    if line == "|comment" {
      TrimOfTrimmed(line);
    } else {
      TrimSpec(line);
    }
    SkippedLines(line);
  }

  // ---------------------------------------------------------------------------
  // A whole stop-word list
  // ---------------------------------------------------------------------------

  /** The set an optional entry stands for: empty or a single word. */
  function AsSet(o: Option<string>): set<string> {
    match o
    case Some(w) => {w}
    case None => {}
  }

  /**
   * The words a sequence of lines gives under a per-line rule `entry`, line by
   * line in reading order. Stated for an arbitrary rule, so that what follows
   * holds whatever a single line gives.
   */
  function Collect(lines: seq<string>, entry: string -> Option<string>): set<string>
    decreases |lines|
  {
    if lines == [] then {}
    else Collect(lines[..|lines| - 1], entry) + AsSet(entry(lines[|lines| - 1]))
  }

  /** A word is collected exactly when some line gives it. */
  lemma {:induction false} CollectMembership(lines: seq<string>, entry: string -> Option<string>, w: string)
    ensures w in Collect(lines, entry) <==> exists i :: 0 <= i < |lines| && entry(lines[i]) == Some(w)
    decreases |lines|
  {
    if lines != [] {
      var n := |lines| - 1;
      var init := lines[..n];
      CollectMembership(init, entry, w);
      if w in Collect(init, entry) {
        var i :| 0 <= i < |init| && entry(init[i]) == Some(w);
        assert lines[i] == init[i];
      }
    }
  }

  /** Collecting `a` and then `b` collects the words of `a` together with those of `b`. */
  lemma {:induction false} CollectAppend(a: seq<string>, b: seq<string>, entry: string -> Option<string>)
    ensures Collect(a + b, entry) == Collect(a, entry) + Collect(b, entry)
    decreases |b|
  {
    if b == [] {
      assert a + b == a;
    } else {
      var n := |b| - 1;
      assert (a + b)[..|a + b| - 1] == a + b[..n];
      assert (a + b)[|a + b| - 1] == b[n];
      CollectAppend(a, b[..n], entry);
    }
  }

  /** The entries that `load(Reader)` adds for a sequence of lines. */
  function Entries(lines: seq<string>): set<string> {
    Collect(lines, LineEntry)
  }

  /** A word is an entry of a list exactly when some line of the list gives it. */
  lemma EntriesMembership(lines: seq<string>, w: string)
    ensures w in Entries(lines) <==> exists i :: 0 <= i < |lines| && LineEntry(lines[i]) == Some(w)
  {
    CollectMembership(lines, LineEntry, w);
  }

  /** Every word a list gives is a well-formed entry. */
  lemma EntriesAreEntries(lines: seq<string>)
    ensures forall w :: w in Entries(lines) ==> IsEntry(w)
  {
    forall w | w in Entries(lines) ensures IsEntry(w) {
      EntriesMembership(lines, w);
      var i :| 0 <= i < |lines| && LineEntry(lines[i]) == Some(w);
      LineEntryIsEntry(lines[i], w);
    }
  }

  /** Reading `a` and then `b` gives the entries of `a` together with those of `b`. */
  lemma EntriesAppend(a: seq<string>, b: seq<string>)
    ensures Entries(a + b) == Entries(a) + Entries(b)
  {
    CollectAppend(a, b, LineEntry);
  }

  /** Reading the same list twice in a row gives what reading it once gives. */
  lemma EntriesTwice(a: seq<string>)
    ensures Entries(a + a) == Entries(a)
  {
    EntriesAppend(a, a);
  }

  /** The order in which two lists are read does not matter. */
  lemma EntriesCommute(a: seq<string>, b: seq<string>)
    ensures Entries(a + b) == Entries(b + a)
  {
    EntriesAppend(a, b);
    EntriesAppend(b, a);
  }

  /** The text "\n\n   \n|comment\n", read as lines, gives nothing (a parameter, as above). */
  lemma BlankListExample(lines: seq<string>)
    requires lines == ["", "", "   ", "|comment"]
    ensures Entries(lines) == {}
  {
    forall i | 0 <= i < |lines| ensures LineEntry(lines[i]) == None {
      SkippedLineExamples(lines[i]);
    }
    forall w ensures w !in Entries(lines) {
      EntriesMembership(lines, w);
    }
  }

  /** The lines of several lists, read one list after the other. */
  function Concat(files: seq<seq<string>>): seq<string>
    decreases |files|
  {
    if files == [] then [] else Concat(files[..|files| - 1]) + files[|files| - 1]
  }

  /** Reading several lists in order collects what each list collects. */
  lemma {:induction false} CollectConcat(files: seq<seq<string>>, entry: string -> Option<string>, w: string)
    ensures w in Collect(Concat(files), entry) <==> exists i :: 0 <= i < |files| && w in Collect(files[i], entry)
    decreases |files|
  {
    if files != [] {
      var n := |files| - 1;
      var init := files[..n];
      assert Concat(files) == Concat(init) + files[n];
      CollectAppend(Concat(init), files[n], entry);
      CollectConcat(init, entry, w);
      if w in Collect(Concat(files), entry) {
        if w in Collect(Concat(init), entry) {
          var i :| 0 <= i < |init| && w in Collect(init[i], entry);
          assert files[i] == init[i];
        } else {
          assert w in Collect(files[n], entry);
        }
      }
      if exists i :: 0 <= i < |files| && w in Collect(files[i], entry) {
        var i :| 0 <= i < |files| && w in Collect(files[i], entry);
        if i < n {
          assert init[i] == files[i];
          assert w in Collect(Concat(init), entry);
        }
      }
    }
  }

  /** A word is an entry of several lists read in order exactly when one of the lists gives it. */
  lemma ConcatEntries(files: seq<seq<string>>, w: string)
    ensures w in Entries(Concat(files)) <==> exists i :: 0 <= i < |files| && w in Entries(files[i])
  {
    CollectConcat(files, LineEntry, w);
  }

  // ---------------------------------------------------------------------------
  // The store
  // ---------------------------------------------------------------------------

  class StopWordSet {
    var data: set<string>

    /** Every stored word is a well-formed entry. */
    ghost predicate Valid()
      reads this
    {
      forall w :: w in data ==> IsEntry(w)
    }

    /** `new StopWordSet()`: an empty store. */
    constructor ()
      ensures Valid()
      ensures data == {}
    {
      data := {};
    }

    /**
     * `new StopWordSet(fileNames)`: an empty store into which the lists are
     * loaded one after the other, which gives exactly the entries of all their
     * lines read in that order.
     */
    constructor FromFiles(files: seq<seq<string>>)
      ensures Valid()
      ensures data == Entries(Concat(files))
    {
      data := {};
      new;
      for i := 0 to |files|
        invariant Valid()
        invariant data == Entries(Concat(files[..i]))
      {
        assert files[..i + 1][..i] == files[..i];
        EntriesAppend(Concat(files[..i]), files[i]);
        LoadLines(files[i]);
      }
      assert files[..|files|] == files;
    }

    /**
     * `load(Reader)`: every line of the list is read in order and its entry,
     * if any, is added; nothing is removed, so the new contents are the old
     * ones together with the entries of the lines.
     */
    method LoadLines(lines: seq<string>)
      requires Valid()
      modifies this
      ensures Valid()
      ensures data == old(data) + Entries(lines)
    {
      var i := 0;
      while i < |lines|
        invariant 0 <= i <= |lines|
        invariant Valid()
        invariant data == old(data) + Entries(lines[..i])
      {
        var line := lines[i];
        var words := Split(Trim(line));
        if |words| > 0 && |Trim(words[0])| > 0 {
          LineEntryIsEntry(line, ToLower(words[0]));
          data := data + {ToLower(words[0])};
        }
        assert lines[..i + 1][..i] == lines[..i];
        i := i + 1;
      }
      assert lines[..i] == lines;
    }

    /**
     * `contains(word)`: exact membership, with no normalisation of the query,
     * so a word holding an upper-case ASCII letter, a separator or a leading
     * blank is never found.
     */
    function Contains(word: string): (b: bool)
      reads this
      requires Valid()
      ensures b <==> word in data
      ensures b ==> IsEntry(word)
      ensures (exists i :: 0 <= i < |word| && IsUpperAscii(word[i])) ==> !b
    {
      ToLowerShape(word);
      word in data
    }

    /** `size()`: the number of distinct entries; zero exactly when the store is empty. */
    function Size(): (n: nat)
      reads this
      ensures n == |data|
      ensures n == 0 <==> data == {}
    {
      |data|
    }

    /** `getData()`: the stored set as a value, through which nothing can be changed. */
    function GetData(): (view: set<string>)
      reads this
      requires Valid()
      ensures view == data
      ensures forall w :: w in view ==> IsEntry(w)
    {
      data
    }
  }

  /**
   * Loading the line "Hello" into a new store stores "hello": `contains`
   * finds the lower-cased query and not the original, and the size is one.
   */
  method CaseSensitivityExample() returns (foundLower: bool, foundOriginal: bool, size: nat)
    ensures foundLower && !foundOriginal && size == 1
  {
    var store := new StopWordSet();
    store.LoadLines(["Hello"]);
    LowerCaseExample("Hello");
    assert ["Hello"][..0] == [];
    assert store.data == {"hello"};
    foundLower := store.Contains("hello");
    foundOriginal := store.Contains("Hello");
    size := store.Size();
  }

  /**
   * Loading the same lines twice into a new store leaves the same set, and so
   * the same size, as loading them once.
   */
  method ReloadIsIdempotent(lines: seq<string>) returns (once: set<string>, twice: set<string>)
    ensures once == twice == Entries(lines)
  {
    var first := new StopWordSet();
    first.LoadLines(lines);
    once := first.GetData();
    var second := new StopWordSet();
    second.LoadLines(lines);
    second.LoadLines(lines);
    twice := second.GetData();
  }
}
