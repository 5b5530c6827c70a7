/**
 * The three java.lang.String operations that StopWordSet.load relies on, as
 * functions on `string` (a `seq<char>`):
 *  - `trim()`, which strips every leading and trailing char up to U+0020;
 *  - `split("\\s|\\|")`, with Java's default limit 0;
 *  - `toLowerCase()`, restricted here to the ASCII letters.
 * The functions carry no quantified contracts of their own, so that unfolding
 * them stays cheap; what each one means is stated by the lemma beside it.
 */
module JavaStrings {

  /** The chars `String.trim` removes: every code point up to and including U+0020. */
  predicate IsTrimBlank(c: char) {
    c <= ' '
  }

  /** The regex class `\s` without UNICODE_CHARACTER_CLASS: [ \t\n\x0B\f\r]. */
  predicate IsRegexSpace(c: char) {
    c == ' ' || c == '\t' || c == '\n' || c as int == 0x0B || c as int == 0x0C || c == '\r'
  }

  /** A char matched by the line pattern `\s|\|`. */
  predicate IsSeparator(c: char) {
    IsRegexSpace(c) || c == '|'
  }

  predicate NoSeparator(s: string) {
    forall i :: 0 <= i < |s| ==> !IsSeparator(s[i])
  }

  // ---------------------------------------------------------------------------
  // trim
  // ---------------------------------------------------------------------------

  /** Drops the leading blanks. */
  function TrimStart(s: string): string {
    if s != [] && IsTrimBlank(s[0]) then TrimStart(s[1..]) else s
  }

  /** Drops the trailing blanks. */
  function TrimEnd(s: string): string {
    if s != [] && IsTrimBlank(s[|s| - 1]) then TrimEnd(s[..|s| - 1]) else s
  }

  /** `String.trim()`. */
  function Trim(s: string): string {
    TrimEnd(TrimStart(s))
  }

  /** TrimStart gives the suffix that starts at the first non-blank char. */
  lemma {:induction false} TrimStartSpec(s: string)
    ensures var r := TrimStart(s);
      && |r| <= |s| && r == s[|s| - |r|..]
      && (forall k :: 0 <= k < |s| - |r| ==> IsTrimBlank(s[k]))
      && (r != [] ==> !IsTrimBlank(r[0]))
  {
    if s != [] && IsTrimBlank(s[0]) {
      var tail := s[1..];
      TrimStartSpec(tail);
      var r := TrimStart(tail);
      assert TrimStart(s) == r;
      assert tail[|tail| - |r|..] == s[|s| - |r|..];
      forall k | 0 < k < |s| - |r| ensures IsTrimBlank(s[k]) {
        assert s[k] == tail[k - 1];
      }
    }
  }

  /** TrimEnd gives the prefix that ends at the last non-blank char. */
  lemma {:induction false} TrimEndSpec(s: string)
    ensures var r := TrimEnd(s);
      && |r| <= |s| && r == s[..|r|]
      && (forall k :: |r| <= k < |s| ==> IsTrimBlank(s[k]))
      && (r != [] ==> !IsTrimBlank(r[|r| - 1]))
  {
    if s != [] && IsTrimBlank(s[|s| - 1]) {
      var init := s[..|s| - 1];
      TrimEndSpec(init);
      var r := TrimEnd(init);
      assert TrimEnd(s) == r;
      assert init[..|r|] == s[..|r|];
      forall k | |r| <= k < |s| - 1 ensures IsTrimBlank(s[k]) {
        assert s[k] == init[k];
      }
    }
  }

  /**
   * `trim()` gives the slice of `s` between its first and its last non-blank
   * char, every char outside that slice being blank; the result is empty
   * exactly when every char of `s` is blank.
   */
  lemma TrimSpec(s: string)
    ensures |TrimStart(s)| <= |s|
    ensures var r := Trim(s); var i := |s| - |TrimStart(s)|;
      && i + |r| <= |s| && r == s[i..i + |r|]
      && (forall k :: 0 <= k < i ==> IsTrimBlank(s[k]))
      && (forall k :: i + |r| <= k < |s| ==> IsTrimBlank(s[k]))
      && (r != [] ==> !IsTrimBlank(r[0]) && !IsTrimBlank(r[|r| - 1]))
      && (r == [] <==> forall k :: 0 <= k < |s| ==> IsTrimBlank(s[k]))
  {
    var t := TrimStart(s);
    var r := TrimEnd(t);
    TrimStartSpec(s);
    TrimEndSpec(t);
    var i := |s| - |t|;
    assert s[i..i + |r|] == t[..|r|];
    forall k | i + |r| <= k < |s| ensures IsTrimBlank(s[k]) {
      assert s[k] == t[k - i];
    }
  }

  /** A string whose first and last chars are not blank is its own trim. */
  lemma TrimOfTrimmed(s: string)
    requires s != [] ==> !IsTrimBlank(s[0]) && !IsTrimBlank(s[|s| - 1])
    ensures Trim(s) == s
  {
  }

  // ---------------------------------------------------------------------------
  // split("\\s|\\|")
  // ---------------------------------------------------------------------------

  /** The prefix of `s` up to its first separator. */
  function FirstToken(s: string): string {
    if s == [] || IsSeparator(s[0]) then [] else [s[0]] + FirstToken(s[1..])
  }

  /** FirstToken gives the longest prefix of `s` that holds no separator. */
  lemma {:induction false} FirstTokenSpec(s: string)
    ensures var t := FirstToken(s);
      && |t| <= |s| && t == s[..|t|]
      && NoSeparator(t)
      && (|t| < |s| ==> IsSeparator(s[|t|]))
  {
    if s != [] && !IsSeparator(s[0]) {
      FirstTokenSpec(s[1..]);
      var t := FirstToken(s[1..]);
      assert FirstToken(s) == [s[0]] + t;
      forall i | 0 <= i < |t| + 1 ensures !IsSeparator(([s[0]] + t)[i]) {
        if i > 0 {
          assert ([s[0]] + t)[i] == t[i - 1];
        }
      }
    }
  }

  /** Conversely, a separator-free prefix that ends at a separator or at the end is the first token. */
  lemma FirstTokenIs(s: string, n: nat)
    requires n <= |s| && NoSeparator(s[..n]) && (n < |s| ==> IsSeparator(s[n]))
    ensures FirstToken(s) == s[..n]
  {
    FirstTokenSpec(s);
    var t := FirstToken(s);
    assert forall i :: 0 <= i < n ==> !IsSeparator(s[i]) by {
      forall i | 0 <= i < n ensures !IsSeparator(s[i]) {
        assert s[..n][i] == s[i];
      }
    }
    assert forall i :: 0 <= i < |t| ==> !IsSeparator(s[i]) by {
      forall i | 0 <= i < |t| ensures !IsSeparator(s[i]) {
        assert t[i] == s[i];
      }
    }
    assert |t| == n;
  }

  /** The number of separator chars in `s`. */
  function SeparatorCount(s: string): nat {
    if s == [] then 0 else (if IsSeparator(s[0]) then 1 else 0) + SeparatorCount(s[1..])
  }

  /** The count of separators does not change when a separator-free prefix is cut off. */
  lemma {:induction false} SeparatorCountSplit(s: string, n: nat)
    requires n <= |s| && NoSeparator(s[..n])
    ensures SeparatorCount(s) == SeparatorCount(s[n..])
  {
    if n > 0 {
      assert s[0] == s[..n][0];
      assert s[1..][..n - 1] == s[..n][1..];
      SeparatorCountSplit(s[1..], n - 1);
      assert s[1..][n - 1..] == s[n..];
    }
  }

  /** The pieces between consecutive separators, empty ones included. */
  function Pieces(s: string): seq<string>
    decreases |s|
  {
    var t := FirstToken(s);
    FirstTokenSpec(s);
    if |t| == |s| then [s] else [t] + Pieces(s[|t| + 1..])
  }

  /**
   * There is one more piece than there are separators, the first piece is the
   * first token, and no piece holds a separator.
   */
  lemma {:induction false} PiecesSpec(s: string)
    ensures |Pieces(s)| == SeparatorCount(s) + 1
    ensures Pieces(s)[0] == FirstToken(s)
    ensures forall i :: 0 <= i < |Pieces(s)| ==> NoSeparator(Pieces(s)[i])
    decreases |s|
  {
    var t := FirstToken(s);
    FirstTokenSpec(s);
    SeparatorCountSplit(s, |t|);
    if |t| < |s| {
      PiecesSpec(s[|t| + 1..]);
      var ps := Pieces(s);
      assert ps == [t] + Pieces(s[|t| + 1..]);
      assert SeparatorCount(s[|t|..]) == 1 + SeparatorCount(s[|t| + 1..]) by {
        assert s[|t|..][1..] == s[|t| + 1..];
      }
    } else {
      assert s[|t|..] == [];
    }
  }

  /** Java's removal of trailing empty strings for limit 0. */
  function DropTrailingEmpty(ps: seq<string>): seq<string> {
    if ps != [] && ps[|ps| - 1] == [] then DropTrailingEmpty(ps[..|ps| - 1]) else ps
  }

  /**
   * DropTrailingEmpty gives the longest prefix of `ps` that does not end in an
   * empty string, everything it cuts off being empty.
   */
  lemma {:induction false} DropTrailingEmptySpec(ps: seq<string>)
    ensures var r := DropTrailingEmpty(ps);
      && |r| <= |ps| && r == ps[..|r|]
      && (r != [] ==> r[|r| - 1] != [])
      && (forall i :: |r| <= i < |ps| ==> ps[i] == [])
  {
    if ps != [] && ps[|ps| - 1] == [] {
      DropTrailingEmptySpec(ps[..|ps| - 1]);
    }
  }

  /**
   * `s.split("\\s|\\|")`: when the pattern matches nowhere the result is `[s]`;
   * otherwise the pieces with the trailing empty ones removed.
   */
  function Split(s: string): seq<string> {
    if SeparatorCount(s) == 0 then [s] else DropTrailingEmpty(Pieces(s))
  }

  /**
   * What `split` gives: words free of separators; when there is a word at all
   * the first one is the first token, and there is one whenever that token is
   * non-empty. An empty result comes only from a non-empty string of
   * separators and empty pieces, such as `"|"`.
   */
  lemma SplitSpec(s: string)
    ensures var ws := Split(s);
      && (forall i :: 0 <= i < |ws| ==> NoSeparator(ws[i]))
      && (ws != [] ==> ws[0] == FirstToken(s))
      && (FirstToken(s) != [] ==> ws != [])
      && (ws == [] ==> s != [] && FirstToken(s) == [])
  {
    FirstTokenSpec(s);
    PiecesSpec(s);
    if SeparatorCount(s) == 0 {
      assert Pieces(s) == [s];
    } else {
      DropTrailingEmptySpec(Pieces(s));
    }
  }

  /** The pattern matches nowhere in the empty string, so `"".split(…)` is `[""]`. */
  lemma SplitEmpty()
    ensures Split("") == [""]
  {
  }

  /** A lone `|` gives two empty pieces, both dropped, so `"|".split(…)` is empty. */
  lemma SplitPipeOnly()
    ensures Split("|") == []
  {
    assert "|"[1..] == [] && IsSeparator("|"[0]);
    assert SeparatorCount("|") == 1;
    assert FirstToken("|") == [];
    assert Pieces("|") == [[], []];
    assert DropTrailingEmpty([[], []]) == DropTrailingEmpty([[]]);
  }

  // ---------------------------------------------------------------------------
  // toLowerCase, ASCII only
  // ---------------------------------------------------------------------------

  predicate IsUpperAscii(c: char) {
    'A' <= c <= 'Z'
  }

  /** Maps 'A'..'Z' to 'a'..'z' and leaves every other char alone. */
  function LowerChar(c: char): (d: char)
    ensures !IsUpperAscii(d)
    ensures IsSeparator(d) <==> IsSeparator(c)
    ensures IsTrimBlank(d) <==> IsTrimBlank(c)
  {
    if IsUpperAscii(c) then (c as int + 32) as char else c
  }

  /** `toLowerCase()`. */
  function ToLower(s: string): string {
    if s == [] then [] else [LowerChar(s[0])] + ToLower(s[1..])
  }

  /** Lower-casing keeps the length and lower-cases each char in place. */
  lemma {:induction false} ToLowerSpec(s: string)
    ensures |ToLower(s)| == |s|
    ensures forall i :: 0 <= i < |s| ==> ToLower(s)[i] == LowerChar(s[i])
  {
    if s != [] {
      ToLowerSpec(s[1..]);
      var r := ToLower(s);
      assert r == [LowerChar(s[0])] + ToLower(s[1..]);
      forall i | 0 < i < |s| ensures r[i] == LowerChar(s[i]) {
        assert r[i] == ToLower(s[1..])[i - 1];
      }
    }
  }

  /** Lower-casing twice is lower-casing once. */
  lemma ToLowerIdempotent(s: string)
    ensures ToLower(ToLower(s)) == ToLower(s)
  {
    var once := ToLower(s);
    ToLowerSpec(s);
    ToLowerSpec(once);
    forall i | 0 <= i < |s| ensures ToLower(once)[i] == once[i] {
      assert !IsUpperAscii(once[i]);
    }
  }

  /**
   * Lower-casing leaves no upper-case ASCII letter, and it neither adds nor
   * removes a separator or a leading blank.
   */
  lemma ToLowerShape(s: string)
    ensures |ToLower(s)| == |s|
    ensures forall i :: 0 <= i < |s| ==> !IsUpperAscii(ToLower(s)[i])
    ensures NoSeparator(ToLower(s)) <==> NoSeparator(s)
    ensures s != [] ==> (IsTrimBlank(ToLower(s)[0]) <==> IsTrimBlank(s[0]))
  {
    var r := ToLower(s);
    ToLowerSpec(s);
    if !NoSeparator(s) {
      var i :| 0 <= i < |s| && IsSeparator(s[i]);
      assert IsSeparator(r[i]);
    }
  }
}
