# StopWordSet, modelled in Dafny

`StopWordSet` keeps a set of stop words: common terms such as "the" that a text
analysis pipeline wants to skip. The set starts empty, or is filled from a list of
stop-word files. It only ever grows, through `load`, which reads a list line by
line. For each line, `load` takes the first token, lower-cases it and adds it.
Queries are `contains` (exact, case-sensitive membership), `size` and `getData`
(a read-only view of the set).

The project has two modules:

- `JavaStrings` (`java_strings.dfy`) models the three `java.lang.String`
  operations that the line rule uses: `trim()` (drops chars up to U+0020 at both
  ends), `split("\\s|\\|")` and `toLowerCase()`. `split` uses Java's default
  limit 0. If the pattern matches nowhere, the result is the whole string, so
  `""` gives `[""]`. Otherwise trailing empty strings are removed, so `"|"`
  gives `[]`. `toLowerCase()` is modelled for ASCII only. The functions have no
  quantified contracts. A lemma beside each function states what the line rule
  reads of its result: the trimmed slice, the first token, the number of words
  and the first word, and the lower-cased chars.
- `StopWords` (`stop_word_set.dfy`) holds the rest:
  - `LineEntry` is the per-line rule of `load(Reader)`.
  - `Entries` is what a sequence of lines adds. It is built on `Collect`, which
    works for any per-line rule.
  - `Concat` joins the lines of several files in order.
  - The class `StopWordSet` has one field, `data: set<string>`. Its `Valid()`
    invariant says every stored word is a well-formed entry (`IsEntry`).

A stream or file is modelled as the sequence of lines `readLine` would return.
A list of files is a sequence of such sequences.

Points where the code's behaviour is easy to misread:

- The pattern `\s|\|` matches one char at a time, not a run of them. A run of
  separators gives empty pieces in between. The first token is the same either
  way.
- The doc comment of `addStopWordListFile` (lines 38-40) says the file is read as
  UTF-8. The method opens the file twice. It reads the second `FileReader`,
  which uses the platform's default encoding and is never closed. Both points
  are I/O and are not part of this model.
- An entry is non-empty, holds no `\s` char and no `|`, starts with a char
  above U+0020 and is lower-case. It may still contain, or end with, other control chars up to
  U+0020, such as U+0001. So an entry is never made only of chars at or below
  U+0020, but it is not always free of blanks. It can even be whitespace-only
  in the Unicode sense: the ideographic space U+3000 is above U+0020 and is not
  matched by `\s`, so a line holding only it is stored. `IsEntry` states exactly
  this, and `IdeographicSpaceIsEntry` shows the U+3000 case.

## Model

| member | source | states |
|---|---|---|
| JavaStrings.TrimSpec | src/main/java/br/ufsc/egc/rudger/expertprofiling/stopword/StopWordSet.java:78 | `trim()` returns the slice of the line between its first and last char above U+0020. Every char cut off is at most U+0020. The result is empty exactly when every char is. |
| JavaStrings.TrimOfTrimmed | src/main/java/br/ufsc/egc/rudger/expertprofiling/stopword/StopWordSet.java:78-79 | A string whose first and last chars are above U+0020 is unchanged by `trim()`. It is used on whole lines whose first and last chars are above U+0020; the second `trim()` on `words[0]` is covered by `TrimSpec`. |
| JavaStrings.FirstTokenSpec | src/main/java/br/ufsc/egc/rudger/expertprofiling/stopword/StopWordSet.java:78 | The first token is the longest prefix with no `\s` char and no `\|`. If it is shorter than the string, a separator follows it. |
| JavaStrings.FirstTokenIs | src/main/java/br/ufsc/egc/rudger/expertprofiling/stopword/StopWordSet.java:78 | Uniqueness: a separator-free prefix that ends at a separator, or at the end, is the first token. |
| JavaStrings.PiecesSpec | src/main/java/br/ufsc/egc/rudger/expertprofiling/stopword/StopWordSet.java:78 | Cutting at every separator gives one more piece than there are separators. The first piece is the first token, and no piece holds a separator. |
| JavaStrings.DropTrailingEmptySpec | src/main/java/br/ufsc/egc/rudger/expertprofiling/stopword/StopWordSet.java:78 | With limit 0, `split` keeps the longest prefix of the pieces that does not end in an empty string. Everything removed is empty. |
| JavaStrings.SplitSpec | src/main/java/br/ufsc/egc/rudger/expertprofiling/stopword/StopWordSet.java:78-79 | Every word `split` returns is separator-free. If a word exists, the first is the first token, and a non-empty first token guarantees one. An empty array comes only from a non-empty line with an empty first token. |
| JavaStrings.SplitEmpty | src/main/java/br/ufsc/egc/rudger/expertprofiling/stopword/StopWordSet.java:78-79 | `"".split(...)` is `[""]`, one empty word, which the non-blank check rejects. |
| JavaStrings.SplitPipeOnly | src/main/java/br/ufsc/egc/rudger/expertprofiling/stopword/StopWordSet.java:78-79 | `"\|".split(...)` is the empty array. This is the case that `words.length > 0` guards. |
| JavaStrings.ToLowerSpec | src/main/java/br/ufsc/egc/rudger/expertprofiling/stopword/StopWordSet.java:80 | The modelled ASCII lower-casing keeps the length and lower-cases each char in place: A-Z become a-z, every other char is unchanged. |
| JavaStrings.ToLowerIdempotent | src/main/java/br/ufsc/egc/rudger/expertprofiling/stopword/StopWordSet.java:80 | Lower-casing twice is the same as lower-casing once. |
| JavaStrings.ToLowerShape | src/main/java/br/ufsc/egc/rudger/expertprofiling/stopword/StopWordSet.java:80 | After lower-casing, no upper-case ASCII letter is left. No separator or leading blank is added or removed. |
| StopWords.LineEntryIsFirstToken | src/main/java/br/ufsc/egc/rudger/expertprofiling/stopword/StopWordSet.java:78-80 | The two-part test at line 79 reduces to one condition: the first token of the trimmed line is non-empty. The word added is that token, lower-cased. |
| StopWords.LineEntryIsEntry | src/main/java/br/ufsc/egc/rudger/expertprofiling/stopword/StopWordSet.java:78-80 | A word that a line adds is non-empty, holds no `\s` char and no `\|`, starts above U+0020 and is lower-case. |
| StopWords.EntryCharacterization | src/main/java/br/ufsc/egc/rudger/expertprofiling/stopword/StopWordSet.java:78-80 | Both directions: some line adds `w` exactly when `IsEntry(w)` holds. For the converse, the line `w + "\|"` adds `w`. |
| StopWords.SkippedLines | src/main/java/br/ufsc/egc/rudger/expertprofiling/stopword/StopWordSet.java:78-79 | A line that trims to nothing, or whose trimmed form starts with `\|`, adds nothing. |
| StopWords.OnlyFirstToken | src/main/java/br/ufsc/egc/rudger/expertprofiling/stopword/StopWordSet.java:38-40 | A token with no blank at either end, then a separator, then anything at all, adds only the token, lower-cased. Everything after the separator is ignored. |
| StopWords.SingleTokenLine | src/main/java/br/ufsc/egc/rudger/expertprofiling/stopword/StopWordSet.java:78-80 | A line that is one token with no blank at either end adds that token, lower-cased. |
| StopWords.FirstTokenExamples | src/main/java/br/ufsc/egc/rudger/expertprofiling/stopword/StopWordSet.java:78-80 | `"foo bar \| baz"`, `"foo\|bar"`, `"foo \|bar"` and `"foo\| bar"` each add just `"foo"`. |
| StopWords.LowerCaseExample | src/main/java/br/ufsc/egc/rudger/expertprofiling/stopword/StopWordSet.java:80 | The line `"Hello"` adds `"hello"`. |
| StopWords.IdeographicSpaceIsEntry | src/main/java/br/ufsc/egc/rudger/expertprofiling/stopword/StopWordSet.java:78-80 | The line made of the single char U+3000 adds itself: it survives `trim()` and `split`, and it is an entry although Unicode calls it whitespace. |
| StopWords.SkippedLineExamples | src/main/java/br/ufsc/egc/rudger/expertprofiling/stopword/StopWordSet.java:79 | The lines `""`, `"   "` and `"\|comment"` add nothing. |
| StopWords.CollectMembership | src/main/java/br/ufsc/egc/rudger/expertprofiling/stopword/StopWordSet.java:77-82 | For any per-line rule, a word is collected exactly when some line gives it. |
| StopWords.CollectAppend | src/main/java/br/ufsc/egc/rudger/expertprofiling/stopword/StopWordSet.java:77-82 | For any per-line rule, collecting `a` then `b` gives the union of what each gives. |
| StopWords.EntriesMembership | src/main/java/br/ufsc/egc/rudger/expertprofiling/stopword/StopWordSet.java:74-83 | A word is added by a list exactly when some line of the list adds it. |
| StopWords.EntriesAreEntries | src/main/java/br/ufsc/egc/rudger/expertprofiling/stopword/StopWordSet.java:74-83 | Every word a list adds satisfies `IsEntry`: it is never empty and holds no `\s` char and no `\|`. |
| StopWords.EntriesAppend | src/main/java/br/ufsc/egc/rudger/expertprofiling/stopword/StopWordSet.java:68-83 | Loading is additive: the entries of `a + b` are those of `a` together with those of `b`. |
| StopWords.EntriesTwice | src/main/java/br/ufsc/egc/rudger/expertprofiling/stopword/StopWordSet.java:80 | Loading the same lines twice in a row adds what loading them once adds. |
| StopWords.EntriesCommute | src/main/java/br/ufsc/egc/rudger/expertprofiling/stopword/StopWordSet.java:80 | Loading `a` then `b` adds the same set as loading `b` then `a`. |
| StopWords.BlankListExample | src/main/java/br/ufsc/egc/rudger/expertprofiling/stopword/StopWordSet.java:77-82 | The text `"\n\n   \n\|comment\n"`, read as its four lines, adds nothing. |
| StopWords.CollectConcat | src/main/java/br/ufsc/egc/rudger/expertprofiling/stopword/StopWordSet.java:33-35 | For any per-line rule, reading several lists one after another collects a word exactly when one of the lists gives it. |
| StopWords.ConcatEntries | src/main/java/br/ufsc/egc/rudger/expertprofiling/stopword/StopWordSet.java:30-36 | A word is an entry of several files read in order exactly when one of the files adds it. |
| StopWords.StopWordSet.constructor | src/main/java/br/ufsc/egc/rudger/expertprofiling/stopword/StopWordSet.java:25-28 | A new store satisfies `Valid()` and is empty, so `size()` is 0 and `contains` is false for every word. |
| StopWords.StopWordSet.FromFiles | src/main/java/br/ufsc/egc/rudger/expertprofiling/stopword/StopWordSet.java:30-36 | Building from files loads each file in order into an empty store. The result is exactly the entries of all their lines, read in that order. |
| StopWords.StopWordSet.LoadLines | src/main/java/br/ufsc/egc/rudger/expertprofiling/stopword/StopWordSet.java:74-83 | The line loop keeps `Valid()`. It leaves `data == old(data) + Entries(lines)`: every old word stays, and exactly the lines' entries are added. |
| StopWords.StopWordSet.Contains | src/main/java/br/ufsc/egc/rudger/expertprofiling/stopword/StopWordSet.java:85-87 | Exact membership with no normalisation of the query. A word that is found satisfies `IsEntry`. A query with an upper-case ASCII letter is never found. |
| StopWords.StopWordSet.Size | src/main/java/br/ufsc/egc/rudger/expertprofiling/stopword/StopWordSet.java:89-91 | The number of distinct entries. It is 0 exactly when the store is empty. |
| StopWords.StopWordSet.GetData | src/main/java/br/ufsc/egc/rudger/expertprofiling/stopword/StopWordSet.java:93-95 | Returns the stored set as a value, so the caller cannot change the store through it. Every element satisfies `IsEntry`. |
| StopWords.CaseSensitivityExample | src/main/java/br/ufsc/egc/rudger/expertprofiling/stopword/StopWordSet.java:80-87 | After loading `"Hello"` into a new store, `contains("hello")` is true, `contains("Hello")` is false and `size()` is 1. |
| StopWords.ReloadIsIdempotent | src/main/java/br/ufsc/egc/rudger/expertprofiling/stopword/StopWordSet.java:68-83 | Loading the same lines twice into a new store gives the same set, and so the same size, as loading them once. |

## Left out

- `load(DataResource)` (lines 51-58) is not modelled. It is a hook for the UIMA framework, a foreign type, and it only wraps `IOException` in `ResourceInitializationException`.
- `addStopWordListFile` and the stream overloads `load(InputStream)` and `load(InputStream, String)` (lines 45-49, 60-66) are not modelled. They open files and decode charsets; the lines then come from the `readLine` loop of `load(Reader)`, and the model starts from those lines. The second `FileReader` that `addStopWordListFile` never closes, and its use of the platform encoding, are not modelled either.
- `IOException` is not modelled. `FromFiles` takes the contents of every file as already read, so a file that cannot be read, and the entries left in the store when a later file fails, are not modelled. If the Java constructor throws, the caller never receives the object.
- `JavaStrings.ToLowerSpec`: lower-cases only the ASCII letters A-Z. Java's `toLowerCase()` also maps non-ASCII letters and depends on the default locale, for example Turkish dotted and dotless i. Java's mapping can also change a string's length: outside Turkish locales U+0130 becomes "i" followed by U+0307. The model keeps the length. The other lemmas use these facts of the model's mapping: it maps each char in place and keeps the length, it sends A-Z to a-z and leaves every other char alone, it is idempotent, it never creates or removes a separator, and it keeps the blankness of the first char. `Contains`'s clause about upper-case queries and `CaseSensitivityExample` rest on the A-Z mapping.
- `JavaStrings.PiecesSpec` and `JavaStrings.SplitSpec`: state the number of pieces, the first piece and that no piece holds a separator, which is all `load` reads of `split`. They do not tie the later pieces to the text between later separators. No lemma of its own states what `SeparatorCount` counts; it is used only through these two.
- `StopWords.StopWordSet.Size`: returns an unbounded `nat`. Java's `size()` returns a 32-bit `int`, which cannot represent more than 2^31 - 1 entries.
- Chars are Unicode scalar values. Java `char`s are UTF-16 code units. Trimming and splitting look only at chars at or below U+007C, so the rule gives the same result either way.
- `Collections.unmodifiableSet` (line 94) is not modelled. It returns a live read-only wrapper with its own object identity. `GetData` returns the set value, which cannot be used to change the store.
- The `null` line that ends `readLine`, and a `null` query passed to `contains`, are not modelled. Dafny strings are never null.
