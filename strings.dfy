/**
 * The Python string primitives the feedback-tool pipeline relies on:
 * deleting the character class `[()\[\]+]`, `str.lower`, `str.split()` with
 * no argument and `sep.join(parts)`. The pipeline never calls `str.split(sep)`;
 * `SplitOn` models it only to state that the `", "`-joined phrase column
 * splits back into its phrases.
 */
module PyStrings {

  // ---------------------------------------------------------------------
  // Character classes
  // ---------------------------------------------------------------------

  /** The characters Python's `str.isspace()` accepts; `str.split()` splits on exactly these. */
  predicate IsSpace(c: char) {
    var n := c as int;
    (9 <= n <= 13) || (28 <= n <= 32) || n == 0x85 || n == 0xA0 || n == 0x1680
    || (0x2000 <= n <= 0x200A) || n == 0x2028 || n == 0x2029 || n == 0x202F
    || n == 0x205F || n == 0x3000
  }

  /** The characters matched by the regular expression class `[()\[\]+]`. */
  predicate IsBracket(c: char) {
    c == '(' || c == ')' || c == '[' || c == ']' || c == '+'
  }

  predicate NoBrackets(s: string) {
    forall i :: 0 <= i < |s| ==> !IsBracket(s[i])
  }

  predicate NoSpaces(s: string) {
    forall i :: 0 <= i < |s| ==> !IsSpace(s[i])
  }

  /** A piece that `str.split()` can return: non-empty and free of whitespace. */
  predicate IsWord(w: string) {
    |w| > 0 && NoSpaces(w)
  }

  // ---------------------------------------------------------------------
  // re.sub(r"[()\[\]+]", "", s)
  // ---------------------------------------------------------------------

  /** The number of characters of `s` in the class. */
  function BracketCount(s: string): nat {
    if s == [] then 0 else (if IsBracket(s[0]) then 1 else 0) + BracketCount(s[1..])
  }

  function RemoveBrackets(s: string): (r: string)
    ensures NoBrackets(r)
    ensures |r| == |s| - BracketCount(s)
  {
    if s == [] then []
    else if IsBracket(s[0]) then RemoveBrackets(s[1..])
    else [s[0]] + RemoveBrackets(s[1..])
  }

  /** Deleting the class from text that has none of its characters changes nothing. */
  lemma {:induction false} RemoveBracketsNoop(s: string)
    requires NoBrackets(s)
    ensures RemoveBrackets(s) == s
  {
    if s != [] {
      RemoveBracketsNoop(s[1..]);
    }
  }

  /** A character of the class is deleted, and any other character is kept. */
  lemma RemoveBracketsChar(c: char)
    ensures RemoveBrackets([c]) == if IsBracket(c) then [] else [c]
  {
  }

  /** Deleting the class distributes over concatenation. */
  lemma {:induction false} RemoveBracketsAppend(a: string, b: string)
    ensures RemoveBrackets(a + b) == RemoveBrackets(a) + RemoveBrackets(b)
  {
    if a != [] {
      assert (a + b)[1..] == a[1..] + b;
      RemoveBracketsAppend(a[1..], b);
    } else {
      assert a + b == b;
    }
  }

  // ---------------------------------------------------------------------
  // str.lower()
  // ---------------------------------------------------------------------

  /** Upper-case letters of ASCII and of Latin-1 (U+00C0..U+00DE except U+00D7). */
  predicate IsUpper(c: char) {
    ('A' <= c <= 'Z') || ('\U{C0}' <= c <= '\U{DE}' && c != '\U{D7}')
  }

  /** Lower-case letters of ASCII and of Latin-1 (U+00E0..U+00FE except U+00F7). */
  predicate IsLower(c: char) {
    ('a' <= c <= 'z') || ('\U{E0}' <= c <= '\U{FE}' && c != '\U{F7}')
  }

  /** The capital of a lower-case letter of the two ranges; other characters are kept. */
  function UpperChar(c: char): char {
    if IsLower(c) then (c as int - 32) as char else c
  }

  /**
   * A capital becomes the lower-case letter whose capital it is; every other
   * character is kept. Whitespace and `( ) [ ] +` are kept in particular.
   */
  function LowerChar(c: char): (r: char)
    ensures !IsUpper(c) ==> r == c
    ensures IsUpper(c) ==> IsLower(r) && UpperChar(r) == c
    ensures !IsUpper(r)
    ensures IsSpace(r) <==> IsSpace(c)
    ensures IsBracket(r) <==> IsBracket(c)
  {
    if IsUpper(c) then (c as int + 32) as char else c
  }

  function Lower(s: string): (r: string)
    ensures |r| == |s|
    ensures forall i :: 0 <= i < |s| ==> r[i] == LowerChar(s[i])
  {
    if s == [] then [] else [LowerChar(s[0])] + Lower(s[1..])
  }

  /** Lower-casing and deleting the bracket class commute: brackets have no case. */
  lemma {:induction false} LowerRemoveBracketsCommute(s: string)
    ensures RemoveBrackets(Lower(s)) == Lower(RemoveBrackets(s))
  {
    if s != [] {
      LowerRemoveBracketsCommute(s[1..]);
    }
  }

  // ---------------------------------------------------------------------
  // sep.join(parts)
  // ---------------------------------------------------------------------

  function Join(sep: string, parts: seq<string>): (r: string)
    ensures parts == [] ==> r == []
    ensures |parts| == 1 ==> r == parts[0]
    decreases |parts|
  {
    if |parts| == 0 then []
    else if |parts| == 1 then parts[0]
    else parts[0] + sep + Join(sep, parts[1..])
  }

  /** Joining bracket-free parts with a bracket-free separator adds no bracket. */
  lemma {:induction false} JoinNoBrackets(sep: string, parts: seq<string>)
    requires NoBrackets(sep)
    requires forall k :: 0 <= k < |parts| ==> NoBrackets(parts[k])
    ensures NoBrackets(Join(sep, parts))
    decreases |parts|
  {
    if |parts| > 1 {
      JoinNoBrackets(sep, parts[1..]);
      var j := Join(sep, parts[1..]);
      var s := parts[0] + sep + j;
      forall i | 0 <= i < |s| ensures !IsBracket(s[i]) {
        if i < |parts[0]| {
          assert s[i] == parts[0][i];
        } else if i < |parts[0]| + |sep| {
          assert s[i] == sep[i - |parts[0]|];
        } else {
          assert s[i] == j[i - |parts[0]| - |sep|];
        }
      }
    }
  }

  function TotalLength(parts: seq<string>): nat {
    if parts == [] then 0 else |parts[0]| + TotalLength(parts[1..])
  }

  /** The joined text holds every part and one separator between each two neighbours. */
  lemma {:induction false} JoinLength(sep: string, parts: seq<string>)
    requires parts != []
    ensures |Join(sep, parts)| == TotalLength(parts) + (|parts| - 1) * |sep|
  {
    if |parts| > 1 {
      JoinLength(sep, parts[1..]);
    }
  }

  // ---------------------------------------------------------------------
  // str.split() with no argument
  // ---------------------------------------------------------------------

  /** The word in progress, if any, as a list of at most one word. */
  function Flush(cur: string): seq<string> {
    if cur == [] then [] else [cur]
  }

  /**
   * Scans `s` one character at a time; `cur` is the word read so far. A
   * whitespace character ends the word in progress, any other extends it.
   */
  function SplitFrom(s: string, cur: string): seq<string>
    decreases |s|
  {
    if s == [] then Flush(cur)
    else if IsSpace(s[0]) then Flush(cur) + SplitFrom(s[1..], [])
    else SplitFrom(s[1..], cur + [s[0]])
  }

  /**
   * The whitespace-separated words of `s`, as Python's `s.split()`: runs of
   * whitespace separate words, and leading or trailing whitespace yields no
   * empty word.
   */
  function Split(s: string): (r: seq<string>)
    ensures forall k :: 0 <= k < |r| ==> IsWord(r[k])
  {
    SplitFromWords(s, []);
    SplitFrom(s, [])
  }

  /** Every piece of the scan is a word, and a bracket-free text gives bracket-free words. */
  lemma {:induction false} SplitFromWords(s: string, cur: string)
    requires NoSpaces(cur)
    ensures forall k :: 0 <= k < |SplitFrom(s, cur)| ==> IsWord(SplitFrom(s, cur)[k])
    ensures NoBrackets(s) && NoBrackets(cur) ==>
      forall k :: 0 <= k < |SplitFrom(s, cur)| ==> NoBrackets(SplitFrom(s, cur)[k])
    decreases |s|
  {
    if s != [] {
      if IsSpace(s[0]) {
        SplitFromWords(s[1..], []);
        var rest := SplitFrom(s[1..], []);
        assert forall k :: 0 <= k < |rest| ==> (Flush(cur) + rest)[|Flush(cur)| + k] == rest[k];
      } else {
        var next := cur + [s[0]];
        assert forall i :: 0 <= i < |cur| ==> next[i] == cur[i];
        SplitFromWords(s[1..], next);
      }
    }
  }

  /** The words of a bracket-free text are bracket-free. */
  lemma SplitNoBrackets(s: string)
    requires NoBrackets(s)
    ensures forall k :: 0 <= k < |Split(s)| ==> NoBrackets(Split(s)[k])
  {
    SplitFromWords(s, []);
  }

  /** Reading whitespace-free characters only extends the word in progress. */
  lemma {:induction false} SplitFromWord(w: string, rest: string, cur: string)
    requires NoSpaces(w)
    ensures SplitFrom(w + rest, cur) == SplitFrom(rest, cur + w)
    decreases |w|
  {
    if w == [] {
      assert w + rest == rest;
      assert cur + w == cur;
    } else {
      assert (w + rest)[0] == w[0];
      assert (w + rest)[1..] == w[1..] + rest;
      SplitFromWord(w[1..], rest, cur + [w[0]]);
      assert cur + [w[0]] + w[1..] == cur + w;
    }
  }

  /** A text that is a single word splits into just that word. */
  lemma SplitOfWord(w: string)
    requires IsWord(w)
    ensures Split(w) == [w]
  {
    SplitFromWord(w, [], []);
    assert w + [] == w;
    assert [] + w == w;
  }

  /** A whitespace character ends the word in progress; the scan goes on afresh after it. */
  lemma {:induction false} SplitFromAtSpace(a: string, c: char, b: string, cur: string)
    requires IsSpace(c)
    ensures SplitFrom(a + [c] + b, cur) == SplitFrom(a, cur) + SplitFrom(b, [])
    decreases |a|
  {
    var s := a + [c] + b;
    if a == [] {
      assert s == [c] + b;
      assert s[1..] == b;
    } else {
      assert s[0] == a[0];
      assert s[1..] == a[1..] + [c] + b;
      if IsSpace(a[0]) {
        SplitFromAtSpace(a[1..], c, b, []);
      } else {
        SplitFromAtSpace(a[1..], c, b, cur + [a[0]]);
      }
    }
  }

  /**
   * Any whitespace character splits a text in two: the words of `a + [c] + b`
   * are the words of `a` followed by the words of `b`. With `SplitOfWord`
   * and `Split("") == []` this determines `Split` on every text.
   */
  lemma SplitAtSpace(a: string, c: char, b: string)
    requires IsSpace(c)
    ensures Split(a + [c] + b) == Split(a) + Split(b)
  {
    SplitFromAtSpace(a, c, b, []);
  }

  /** `str.split()` undoes `" ".join` of words: the two are inverse on word lists. */
  lemma {:induction false} SplitJoin(ws: seq<string>)
    requires forall k :: 0 <= k < |ws| ==> IsWord(ws[k])
    ensures Split(Join(" ", ws)) == ws
  {
    if |ws| == 1 {
      SplitFromWord(ws[0], [], []);
      assert ws[0] + [] == ws[0];
      assert [] + ws[0] == ws[0];
    } else if |ws| > 1 {
      var w := ws[0];
      var j := Join(" ", ws[1..]);
      assert Join(" ", ws) == w + (" " + j);
      SplitFromWord(w, " " + j, []);
      assert [] + w == w;
      assert (" " + j)[1..] == j;
      SplitJoin(ws[1..]);
      assert SplitFrom(" " + j, w) == [w] + SplitFrom(j, []);
    }
  }

  /**
   * Text in the form `" ".join(words)` produces: no whitespace but single
   * spaces, none at either end and no two in a row.
   */
  predicate SingleSpaced(s: string) {
    (forall i :: 0 <= i < |s| && IsSpace(s[i]) ==> s[i] == ' ')
    && (|s| > 0 ==> s[0] != ' ' && s[|s| - 1] != ' ')
    && (forall i :: 0 < i < |s| && s[i] == ' ' ==> s[i - 1] != ' ')
  }

  /** Joining words with single spaces gives single-spaced text. */
  lemma {:induction false} JoinSingleSpaced(ws: seq<string>)
    requires forall k :: 0 <= k < |ws| ==> IsWord(ws[k])
    ensures SingleSpaced(Join(" ", ws))
    decreases |ws|
  {
    if |ws| > 1 {
      var w := ws[0];
      var j := Join(" ", ws[1..]);
      JoinSingleSpaced(ws[1..]);
      var s := w + " " + j;
      assert Join(" ", ws) == s;
      assert |w| > 0 && |j| > 0;
      assert !IsSpace(j[0]);
      forall i | 0 <= i < |s| ensures IsSpace(s[i]) ==> s[i] == ' ' {
        if i < |w| {
          assert s[i] == w[i];
        } else if i > |w| {
          assert s[i] == j[i - |w| - 1];
        }
      }
      forall i | 0 < i < |s| ensures s[i] == ' ' ==> s[i - 1] != ' ' {
        if i < |w| {
          assert s[i] == w[i];
        } else if i == |w| {
          assert s[i - 1] == w[|w| - 1];
        } else if i == |w| + 1 {
          assert s[i] == j[0];
        } else {
          assert s[i] == j[i - |w| - 1] && s[i - 1] == j[i - |w| - 2];
        }
      }
      assert s[0] == w[0];
      assert s[|s| - 1] == j[|j| - 1];
    }
  }

  /** The length of the leading whitespace-free run of `s`. */
  function WordEnd(s: string): (n: nat)
    ensures n <= |s|
    ensures forall i :: 0 <= i < n ==> !IsSpace(s[i])
    ensures n < |s| ==> IsSpace(s[n])
  {
    if s == [] || IsSpace(s[0]) then 0 else 1 + WordEnd(s[1..])
  }

  /** After the first space of single-spaced text comes more single-spaced text. */
  lemma SingleSpacedTail(s: string, n: nat)
    requires SingleSpaced(s) && 0 < n < |s| && s[n] == ' '
    ensures n + 1 < |s| && SingleSpaced(s[n + 1..])
  {
    var t := s[n + 1..];
    assert forall i :: 0 <= i < |t| ==> t[i] == s[n + 1 + i];
  }

  /** A word followed by a space contributes just that word. */
  lemma SplitWordThenSpace(w: string, t: string)
    requires NoSpaces(w)
    ensures Split(w + (" " + t)) == Flush(w) + Split(t)
  {
    SplitFromWord(w, " " + t, []);
    assert [] + w == w;
    assert (" " + t)[1..] == t;
  }

  /** Re-joining the words of single-spaced text gives the text back. */
  lemma {:induction false} SingleSpacedJoinSplit(s: string)
    requires SingleSpaced(s)
    ensures Join(" ", Split(s)) == s
    decreases |s|
  {
    if s != [] {
      var n := WordEnd(s);
      assert n > 0 by { assert !IsSpace(s[0]); }
      var w := s[..n];
      if n == |s| {
        assert w == s && s + [] == s;
        SplitFromWord(s, [], []);
        assert [] + s == s;
      } else {
        SingleSpacedTail(s, n);
        var t := s[n + 1..];
        assert s == w + (" " + t);
        SplitWordThenSpace(w, t);
        SingleSpacedJoinSplit(t);
        assert Split(t) != [];
        assert ([w] + Split(t))[1..] == Split(t);
      }
    }
  }

  // ---------------------------------------------------------------------
  // str.split(sep) with an explicit separator
  // ---------------------------------------------------------------------

  /**
   * The pieces of `s` between the occurrences of `sep`, scanned left to right,
   * as Python's `s.split(sep)`: always at least one piece, `""` gives `[""]`.
   */
  function SplitOn(s: string, sep: string): (r: seq<string>)
    requires sep != []
    ensures |r| >= 1
    decreases |s|
  {
    if |s| < |sep| then [s]
    else if s[..|sep|] == sep then [[]] + SplitOn(s[|sep|..], sep)
    else
      var rest := SplitOn(s[1..], sep);
      [[s[0]] + rest[0]] + rest[1..]
  }

  /** `p` does not contain the separator `", "`. */
  predicate NoCommaSpace(p: string) {
    forall i :: 0 <= i < |p| - 1 ==> !(p[i] == ',' && p[i + 1] == ' ')
  }

  lemma NoCommaSpaceTail(p: string)
    requires p != [] && NoCommaSpace(p)
    ensures NoCommaSpace(p[1..])
  {
    forall i | 0 <= i < |p[1..]| - 1
      ensures !(p[1..][i] == ',' && p[1..][i + 1] == ' ')
    {
      assert p[1..][i] == p[i + 1] && p[1..][i + 1] == p[i + 2];
    }
  }

  lemma {:induction false} SplitOnPlain(p: string)
    requires NoCommaSpace(p)
    ensures SplitOn(p, ", ") == [p]
    decreases |p|
  {
    if |p| >= 2 {
      assert p[..2][0] == p[0] && p[..2][1] == p[1];
      NoCommaSpaceTail(p);
      SplitOnPlain(p[1..]);
      assert [p[0]] + p[1..] == p;
    }
  }

  lemma {:induction false} SplitOnHead(p: string, rest: string)
    requires NoCommaSpace(p)
    ensures SplitOn(p + ", " + rest, ", ") == [p] + SplitOn(rest, ", ")
    decreases |p|
  {
    var s := p + ", " + rest;
    if p == [] {
      assert s == ", " + rest;
      assert s[..2] == ", ";
      assert s[2..] == rest;
    } else {
      assert s[0] == p[0];
      assert s[1] == if |p| >= 2 then p[1] else ',';
      assert s[..2][0] == s[0] && s[..2][1] == s[1];
      NoCommaSpaceTail(p);
      assert s[1..] == p[1..] + ", " + rest;
      SplitOnHead(p[1..], rest);
      assert [p[0]] + p[1..] == p;
    }
  }

  /**
   * `str.split(", ")` undoes `", ".join` of a non-empty list none of whose
   * parts contains `", "`; the separator cannot overlap itself, so a part
   * ending in a comma is still recovered.
   */
  lemma {:induction false} SplitOnJoin(parts: seq<string>)
    requires parts != []
    requires forall k :: 0 <= k < |parts| ==> NoCommaSpace(parts[k])
    ensures SplitOn(Join(", ", parts), ", ") == parts
    decreases |parts|
  {
    if |parts| == 1 {
      SplitOnPlain(parts[0]);
    } else {
      SplitOnHead(parts[0], Join(", ", parts[1..]));
      SplitOnJoin(parts[1..]);
    }
  }
}
