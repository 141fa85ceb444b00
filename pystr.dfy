/**
  * The Python `str` operations the ingestion and cleaning rules are built from,
  * on `string` (a sequence of Unicode scalar values): `split()`, `split(c)`,
  * `join`, `strip()`, `strip(chars)`, `startswith`, `endswith`, `in`,
  * and ASCII `lower()` / `upper()`.
  */
module PyStr {

  /** Regrouping a concatenation (proved once, generically; inline it is costly on sequences of strings). */
  lemma ConcatAssoc<T>(a: seq<T>, b: seq<T>, c: seq<T>)
    ensures a + (b + c) == (a + b) + c
  {
  }

  /** The head and tail of `x + [c] + y` when `x` is not empty. */
  lemma ConsTail<T>(x: seq<T>, c: T, y: seq<T>)
    requires x != []
    ensures (x + [c] + y)[0] == x[0] && (x + [c] + y)[1..] == x[1..] + [c] + y
  {
  }

  // ---------------------------------------------------------------------------
  // Whitespace

  /** Python's `str.isspace` for one character: the separators `split()` and `strip()` use. */
  predicate IsSpace(c: char) {
    var n := c as int;
    (9 <= n <= 13) || (28 <= n <= 32) || n == 0x85 || n == 0xA0 || n == 0x1680 ||
    (0x2000 <= n <= 0x200A) || n == 0x2028 || n == 0x2029 || n == 0x202F ||
    n == 0x205F || n == 0x3000
  }

  predicate AllSpace(g: string) {
    forall k :: 0 <= k < |g| ==> IsSpace(g[k])
  }

  /** A word: a non-empty run of non-whitespace characters. */
  predicate IsWord(w: string) {
    |w| > 0 && forall k :: 0 <= k < |w| ==> !IsSpace(w[k])
  }

  // ---------------------------------------------------------------------------
  // split() with no argument

  /** Length of the maximal run of non-whitespace characters at the front of `s`. */
  function RunLength(s: string): (n: nat)
    ensures n <= |s|
    ensures forall k :: 0 <= k < n ==> !IsSpace(s[k])
    ensures n < |s| ==> IsSpace(s[n])
  {
    if s == [] || IsSpace(s[0]) then 0 else 1 + RunLength(s[1..])
  }

  /** Python's `s.split()`: the words of `s`, in order. */
  function Words(s: string): (ws: seq<string>)
    ensures forall i :: 0 <= i < |ws| ==> IsWord(ws[i])
    decreases |s|
  {
    if s == [] then []
    else if IsSpace(s[0]) then Words(s[1..])
    else
      var n := RunLength(s);
      [s[..n]] + Words(s[n..])
  }

  /** `len(s.split())`. */
  function CountWords(s: string): nat {
    |Words(s)|
  }

  /** The run at the front of `s` is determined by where the first whitespace character is. */
  lemma RunLengthIs(s: string, n: nat)
    requires n <= |s|
    requires forall k :: 0 <= k < n ==> !IsSpace(s[k])
    requires n < |s| ==> IsSpace(s[n])
    ensures RunLength(s) == n
  {
  }

  /** Leading whitespace contributes no word. */
  lemma {:induction false} WordsSkipSpace(g: string, t: string)
    requires AllSpace(g)
    ensures Words(g + t) == Words(t)
  {
    if g != [] {
      assert (g + t)[0] == g[0];
      assert (g + t)[1..] == g[1..] + t;
      WordsSkipSpace(g[1..], t);
    } else {
      assert g + t == t;
    }
  }

  /** A word on its own splits into itself. */
  lemma WordsOfWord(w: string)
    requires IsWord(w)
    ensures Words(w) == [w]
  {
    RunLengthIs(w, |w|);
    assert w[..|w|] == w;
    assert w[|w|..] == [];
  }

  /** A whitespace character separates: the words on both sides are kept apart and none is lost. */
  lemma {:induction false} WordsAroundSpace(a: string, c: char, b: string)
    requires IsSpace(c)
    ensures Words(a + [c] + b) == Words(a) + Words(b)
    decreases |a|
  {
    var s := a + [c] + b;
    if a == [] {
      assert s[1..] == b;
    } else if IsSpace(a[0]) {
      assert s[1..] == a[1..] + [c] + b;
      WordsAroundSpace(a[1..], c, b);
    } else {
      var n := RunLength(a);
      RunLengthIs(s, n);
      assert s[..n] == a[..n];
      assert s[n..] == a[n..] + [c] + b;
      WordsAroundSpace(a[n..], c, b);
    }
  }

  // ---------------------------------------------------------------------------
  // What split() means: the maximal runs between whitespace gaps

  /** The string `gaps[0] + ws[0] + gaps[1] + ... + ws[n-1] + gaps[n]`. */
  function Interleave(gaps: seq<string>, ws: seq<string>): string
    requires |gaps| == |ws| + 1
    decreases |ws|
  {
    if ws == [] then gaps[0] else gaps[0] + ws[0] + Interleave(gaps[1..], ws[1..])
  }

  /**
    * `ws` are words and `gaps` whitespace, with a non-empty gap between any two
    * consecutive words, so each word is a maximal non-whitespace run.
    */
  predicate Separates(gaps: seq<string>, ws: seq<string>) {
    |gaps| == |ws| + 1 &&
    (forall i :: 0 <= i < |gaps| ==> AllSpace(gaps[i])) &&
    (forall i :: 0 < i < |ws| ==> gaps[i] != []) &&
    (forall i :: 0 <= i < |ws| ==> IsWord(ws[i]))
  }

  /** A word followed by nothing or by whitespace is split off as one word. */
  lemma WordThenGap(w: string, rest: string)
    requires IsWord(w)
    requires rest == [] || IsSpace(rest[0])
    ensures Words(w + rest) == [w] + Words(rest)
  {
    if rest == [] {
      assert w + rest == w;
      WordsOfWord(w);
    } else {
      assert w + rest == w + [rest[0]] + rest[1..];
      WordsAroundSpace(w, rest[0], rest[1..]);
      WordsOfWord(w);
      assert rest == [rest[0]] + rest[1..];
      WordsSkipSpace([rest[0]], rest[1..]);
    }
  }

  lemma SeparatesTail(gaps: seq<string>, ws: seq<string>)
    requires Separates(gaps, ws) && ws != []
    ensures Separates(gaps[1..], ws[1..])
  {
    forall i | 0 < i < |ws[1..]| ensures gaps[1..][i] != [] {
      assert gaps[1..][i] == gaps[i + 1];
    }
  }

  /** An interleaving whose first gap is not empty when a word follows starts with whitespace, if anything. */
  lemma InterleaveStartsWithSpace(gaps: seq<string>, ws: seq<string>)
    requires Separates(gaps, ws)
    requires ws != [] ==> gaps[0] != []
    ensures var r := Interleave(gaps, ws); r == [] || IsSpace(r[0])
  {
    if ws != [] {
      ConcatAssoc(gaps[0], ws[0], Interleave(gaps[1..], ws[1..]));
    }
  }

  /** Induction step of `WordsOfInterleave`: the first gap is skipped and the first word split off. */
  lemma WordsOfInterleaveStep(gaps: seq<string>, ws: seq<string>)
    requires Separates(gaps, ws) && ws != []
    requires Separates(gaps[1..], ws[1..])
    requires Words(Interleave(gaps[1..], ws[1..])) == ws[1..]
    ensures Words(Interleave(gaps, ws)) == ws
  {
    var g, w, rest := gaps[0], ws[0], Interleave(gaps[1..], ws[1..]);
    ConcatAssoc(g, w, rest);
    assert Interleave(gaps, ws) == g + (w + rest);
    WordsSkipSpace(g, w + rest);
    assert |ws| > 1 ==> gaps[1..][0] == gaps[1];
    InterleaveStartsWithSpace(gaps[1..], ws[1..]);
    WordThenGap(w, rest);
    assert ws == [w] + ws[1..];
  }

  /** Whatever whitespace surrounds and separates a sequence of words, `split()` recovers exactly those words. */
  lemma {:induction false} WordsOfInterleave(gaps: seq<string>, ws: seq<string>)
    requires Separates(gaps, ws)
    ensures Words(Interleave(gaps, ws)) == ws
    decreases |ws|
  {
    if ws == [] {
      WordsSkipSpace(gaps[0], []);
      assert gaps[0] + [] == gaps[0];
    } else {
      SeparatesTail(gaps, ws);
      WordsOfInterleave(gaps[1..], ws[1..]);
      WordsOfInterleaveStep(gaps, ws);
    }
  }

  /** Widening the first gap by a prefix `x` puts `x` in front of the interleaving. */
  lemma InterleaveWiderFirstGap(x: string, g: seq<string>, ws: seq<string>)
    requires |g| == |ws| + 1
    ensures Interleave([x + g[0]] + g[1..], ws) == x + Interleave(g, ws)
  {
    var gaps := [x + g[0]] + g[1..];
    assert gaps[1..] == g[1..];
  }

  /** An empty first gap followed by the word `w` puts `w` in front. */
  lemma InterleaveLeadingWord(w: string, g: seq<string>, ws: seq<string>)
    requires |g| == |ws| + 1
    ensures Interleave([""] + g, [w] + ws) == w + Interleave(g, ws)
  {
    var gaps, words := [""] + g, [w] + ws;
    assert gaps[1..] == g && words[1..] == ws;
    assert gaps[0] + words[0] == w;
  }

  /** The interleaving starts with the first gap's first character, or the first word's when that gap is empty. */
  lemma InterleaveFirstChar(g: seq<string>, ws: seq<string>)
    requires |g| == |ws| + 1 && ws != [] && ws[0] != []
    ensures Interleave(g, ws) != []
    ensures Interleave(g, ws)[0] == if g[0] != [] then g[0][0] else ws[0][0]
  {
    assert Interleave(g, ws) == g[0] + (ws[0] + Interleave(g[1..], ws[1..]));
  }

  /** Every string is its words separated by whitespace gaps, so `split()` yields exactly its maximal runs. */
  lemma {:induction false} Decompose(s: string) returns (gaps: seq<string>)
    ensures Separates(gaps, Words(s))
    ensures Interleave(gaps, Words(s)) == s
    decreases |s|
  {
    if s == [] {
      gaps := [""];
    } else if IsSpace(s[0]) {
      var g := Decompose(s[1..]);
      gaps := [[s[0]] + g[0]] + g[1..];
      InterleaveWiderFirstGap([s[0]], g, Words(s[1..]));
      assert s == [s[0]] + s[1..];
      assert forall i :: 0 < i < |gaps| ==> gaps[i] == g[i];
    } else {
      var n := RunLength(s);
      var g := Decompose(s[n..]);
      var ws := Words(s[n..]);
      gaps := [""] + g;
      InterleaveLeadingWord(s[..n], g, ws);
      assert s == s[..n] + s[n..];
      if ws != [] {
        InterleaveFirstChar(g, ws);
      }
      assert forall i :: 0 < i < |gaps| ==> gaps[i] == g[i - 1];
    }
  }

  // ---------------------------------------------------------------------------
  // join

  /** Python's `sep.join(parts)`. */
  function Join(sep: string, parts: seq<string>): string
    decreases |parts|
  {
    if |parts| == 0 then ""
    else if |parts| == 1 then parts[0]
    else parts[0] + sep + Join(sep, parts[1..])
  }

  /** The words of each part, one part after another. */
  function WordsOfEach(parts: seq<string>): seq<string>
    decreases |parts|
  {
    if parts == [] then [] else Words(parts[0]) + WordsOfEach(parts[1..])
  }

  /** The sum of the parts' word counts. */
  function TotalWords(parts: seq<string>): nat
    decreases |parts|
  {
    if parts == [] then 0 else CountWords(parts[0]) + TotalWords(parts[1..])
  }

  /** Parts joined by a whitespace character split into the parts' own words, in order. */
  lemma {:induction false} WordsOfJoin(c: char, parts: seq<string>)
    requires IsSpace(c)
    ensures Words(Join([c], parts)) == WordsOfEach(parts)
    decreases |parts|
  {
    if |parts| == 1 {
      assert WordsOfEach(parts[1..]) == [];
    } else if |parts| > 1 {
      WordsAroundSpace(parts[0], c, Join([c], parts[1..]));
      WordsOfJoin(c, parts[1..]);
    }
  }

  lemma {:induction false} WordsOfEachLength(parts: seq<string>)
    ensures |WordsOfEach(parts)| == TotalWords(parts)
    decreases |parts|
  {
    if parts != [] {
      WordsOfEachLength(parts[1..]);
    }
  }

  /** Joining on a whitespace character adds no word and merges none: the count is the sum of the parts' counts. */
  lemma CountWordsOfJoin(c: char, parts: seq<string>)
    requires IsSpace(c)
    ensures CountWords(Join([c], parts)) == TotalWords(parts)
  {
    WordsOfJoin(c, parts);
    WordsOfEachLength(parts);
  }

  /** Words joined by single spaces split back into the same words: `' '.join(ws).split() == ws`. */
  lemma {:induction false} WordsOfSpaceJoin(ws: seq<string>)
    requires forall i :: 0 <= i < |ws| ==> IsWord(ws[i])
    ensures Words(Join(" ", ws)) == ws
    decreases |ws|
  {
    WordsOfJoin(' ', ws);
    if ws != [] {
      WordsOfWord(ws[0]);
      WordsOfSpaceJoin(ws[1..]);
      WordsOfJoin(' ', ws[1..]);
    }
  }

  // ---------------------------------------------------------------------------
  // split(c) for one separator character

  lemma JoinFirstSplit(x: char, y: string, rest: seq<string>, sep: string)
    ensures Join(sep, [[x] + y] + rest) == [x] + Join(sep, [y] + rest)
  {
    if rest != [] {
      assert ([[x] + y] + rest)[1..] == rest;
      assert ([y] + rest)[1..] == rest;
    }
  }

  /** Python's `s.split(c)`: the pieces between occurrences of `c`. */
  function SplitOn(s: string, c: char): (parts: seq<string>)
    ensures |parts| >= 1
    decreases |s|
  {
    if s == [] then [""]
    else
      var rest := SplitOn(s[1..], c);
      if s[0] == c then [""] + rest else [[s[0]] + rest[0]] + rest[1..]
  }

  /** There is one more piece than there are separators, and no piece holds a separator. */
  lemma {:induction false} SplitOnPieces(s: string, c: char)
    ensures |SplitOn(s, c)| == multiset(s)[c] + 1
    ensures forall i :: 0 <= i < |SplitOn(s, c)| ==> c !in SplitOn(s, c)[i]
    decreases |s|
  {
    if s != [] {
      SplitOnPieces(s[1..], c);
      assert s == [s[0]] + s[1..];
      assert multiset(s) == multiset([s[0]]) + multiset(s[1..]);
      var rest := SplitOn(s[1..], c);
      if s[0] != c {
        assert forall i :: 1 <= i < |SplitOn(s, c)| ==> SplitOn(s, c)[i] == rest[i];
      }
    }
  }

  /** Joining the pieces with the separator gives the string back: `c.join(s.split(c)) == s`. */
  lemma {:induction false} JoinSplitOn(s: string, c: char)
    ensures Join([c], SplitOn(s, c)) == s
    decreases |s|
  {
    if s != [] {
      JoinSplitOn(s[1..], c);
      var rest := SplitOn(s[1..], c);
      if s[0] == c {
        assert ([""] + rest)[1..] == rest;
      } else {
        assert rest == [rest[0]] + rest[1..];
        JoinFirstSplit(s[0], rest[0], rest[1..], [c]);
      }
      assert s == [s[0]] + s[1..];
    }
  }

  /** A leading separator starts an empty piece. */
  lemma SplitOnConsSeparator(t: string, c: char)
    ensures SplitOn([c] + t, c) == [""] + SplitOn(t, c)
  {
    assert ([c] + t)[1..] == t;
  }

  /** Any other leading character joins the first piece. */
  lemma SplitOnConsOther(a: char, t: string, c: char)
    requires a != c
    ensures SplitOn([a] + t, c) == [[a] + SplitOn(t, c)[0]] + SplitOn(t, c)[1..]
  {
    assert ([a] + t)[0] == a;
    assert ([a] + t)[1..] == t;
  }

  /** Induction step of `SplitOnAround` when the first piece is empty. */
  lemma SplitOnAroundSeparator(x: string, c: char, y: string)
    requires x != [] && x[0] == c
    requires SplitOn(x[1..] + [c] + y, c) == SplitOn(x[1..], c) + SplitOn(y, c)
    ensures SplitOn(x + [c] + y, c) == SplitOn(x, c) + SplitOn(y, c)
  {
    var s := x + [c] + y;
    var p, q := SplitOn(x[1..], c), SplitOn(y, c);
    ConsTail(x, c, y);
    assert SplitOn(s, c) == [""] + (p + q);
    assert SplitOn(x, c) == [""] + p;
    ConcatAssoc([""], p, q);
  }

  /** A non-separator in front joins the first piece of the rest's split. */
  lemma SplitOnOther(s: string, c: char, rest: seq<string>)
    requires s != [] && s[0] != c && SplitOn(s[1..], c) == rest
    ensures SplitOn(s, c) == [[s[0]] + rest[0]] + rest[1..]
  {
  }

  /** Induction step of `SplitOnAround` when the first piece starts with `x[0]`. */
  lemma SplitOnAroundOther(x: string, c: char, y: string)
    requires x != [] && x[0] != c
    requires SplitOn(x[1..] + [c] + y, c) == SplitOn(x[1..], c) + SplitOn(y, c)
    ensures SplitOn(x + [c] + y, c) == SplitOn(x, c) + SplitOn(y, c)
  {
    var s := x + [c] + y;
    var p, q := SplitOn(x[1..], c), SplitOn(y, c);
    ConsTail(x, c, y);
    assert (p + q)[0] == p[0] && (p + q)[1..] == p[1..] + q;
    SplitOnOther(s, c, p + q);
    SplitOnOther(x, c, p);
    ConcatAssoc([[x[0]] + p[0]], p[1..], q);
  }

  /** Splitting at an occurrence of the separator splits the two sides independently. */
  lemma {:induction false} SplitOnAround(x: string, c: char, y: string)
    ensures SplitOn(x + [c] + y, c) == SplitOn(x, c) + SplitOn(y, c)
    decreases |x|
  {
    if x == [] {
      assert x + [c] + y == [c] + y;
      SplitOnConsSeparator(y, c);
    } else {
      SplitOnAround(x[1..], c, y);
      if x[0] == c {
        SplitOnAroundSeparator(x, c, y);
      } else {
        SplitOnAroundOther(x, c, y);
      }
    }
  }

  /** A string free of the separator is a single piece. */
  lemma {:induction false} SplitOnPiece(x: string, c: char)
    requires c !in x
    ensures SplitOn(x, c) == [x]
    decreases |x|
  {
    if x != [] {
      SplitOnPiece(x[1..], c);
      assert [x[0]] + x[1..] == x;
    }
  }

  /** Splitting a join of separator-free pieces gives the pieces back: `c.join(ps).split(c) == ps`. */
  lemma {:induction false} SplitOnJoin(parts: seq<string>, c: char)
    requires |parts| >= 1
    requires forall i :: 0 <= i < |parts| ==> c !in parts[i]
    ensures SplitOn(Join([c], parts), c) == parts
    decreases |parts|
  {
    SplitOnPiece(parts[0], c);
    if |parts| > 1 {
      SplitOnJoin(parts[1..], c);
      SplitOnAround(parts[0], c, Join([c], parts[1..]));
    }
  }

  /** One past the last occurrence of `c` in `s`, 0 when `c` does not occur. */
  function AfterLast(s: string, c: char): (k: nat)
    ensures k <= |s| && (k > 0 ==> s[k - 1] == c)
    ensures forall j :: k <= j < |s| ==> s[j] != c
    decreases |s|
  {
    if s == [] then 0 else if s[|s| - 1] == c then |s| else AfterLast(s[..|s| - 1], c)
  }

  /** `s.split(c)[-1]` is the text after the last `c`, the whole string when there is none. */
  lemma LastPiece(s: string, c: char)
    ensures SplitOn(s, c)[|SplitOn(s, c)| - 1] == s[AfterLast(s, c)..]
  {
    var k := AfterLast(s, c);
    SplitOnPiece(s[k..], c);
    if k > 0 {
      assert s == s[..k - 1] + [c] + s[k..];
      SplitOnAround(s[..k - 1], c, s[k..]);
    }
  }

  // ---------------------------------------------------------------------------
  // strip

  /** Index of the first character of `s` that `drop` keeps (|s| when it drops them all). */
  function LeadingDropped(s: string, drop: char -> bool): (i: nat)
    ensures i <= |s|
    ensures forall k :: 0 <= k < i ==> drop(s[k])
    ensures i < |s| ==> !drop(s[i])
    decreases |s|
  {
    if s == [] || !drop(s[0]) then 0 else 1 + LeadingDropped(s[1..], drop)
  }

  /** One past the last character of `s` that `drop` keeps (0 when it drops them all). */
  function TrailingKept(s: string, drop: char -> bool): (j: nat)
    ensures j <= |s|
    ensures forall k :: j <= k < |s| ==> drop(s[k])
    ensures j > 0 ==> !drop(s[j - 1])
    decreases |s|
  {
    if s == [] || !drop(s[|s| - 1]) then |s| else TrailingKept(s[..|s| - 1], drop)
  }

  /**
    * Python's `strip` with the characters to remove given by `drop`: the slice of `s`
    * from its first kept character to its last, empty when every character is dropped.
    */
  function StripWith(s: string, drop: char -> bool): (r: string)
    ensures r == [] <==> forall k :: 0 <= k < |s| ==> drop(s[k])
    ensures r != [] ==> !drop(r[0]) && !drop(r[|r| - 1])
    ensures LeadingDropped(s, drop) + |r| <= |s|
    ensures forall k :: 0 <= k < |r| ==> r[k] == s[LeadingDropped(s, drop) + k]
    ensures forall k :: 0 <= k < LeadingDropped(s, drop) ==> drop(s[k])
    ensures forall k :: LeadingDropped(s, drop) + |r| <= k < |s| ==> drop(s[k])
  {
    var i := LeadingDropped(s, drop);
    var j := TrailingKept(s, drop);
    if i < j then s[i..j] else ""
  }

  /** `s.strip()`. */
  function Strip(s: string): string {
    StripWith(s, IsSpace)
  }

  /** `s.strip(chars)`. */
  function StripChars(s: string, chars: string): string {
    StripWith(s, c => c in chars)
  }

  // ---------------------------------------------------------------------------
  // prefixes, suffixes, substrings, filtering

  /** `s.startswith(p)`. */
  predicate StartsWith(s: string, p: string) {
    |p| <= |s| && s[..|p|] == p
  }

  /** `s.endswith(p)`. */
  predicate EndsWith(s: string, p: string) {
    |p| <= |s| && s[|s| - |p|..] == p
  }

  /** `p in s` for strings: `p` occurs somewhere in `s` as a contiguous block. */
  predicate Contains(s: string, p: string)
    decreases |s|
  {
    StartsWith(s, p) || (s != [] && Contains(s[1..], p))
  }

  /** The elements of `s` that satisfy `keep`, in their original order. */
  function Filter<T>(s: seq<T>, keep: T -> bool): (r: seq<T>)
    ensures |r| <= |s|
    decreases |s|
  {
    if s == [] then []
    else (if keep(s[0]) then [s[0]] else []) + Filter(s[1..], keep)
  }

  /** What is kept is exactly the elements that satisfy `keep`. */
  lemma {:induction false} FilterMembers<T>(s: seq<T>, keep: T -> bool, x: T)
    ensures x in Filter(s, keep) <==> x in s && keep(x)
    decreases |s|
  {
    if s != [] {
      FilterMembers(s[1..], keep, x);
      assert s == [s[0]] + s[1..];
    }
  }

  /** Filtering what is already filtered changes nothing. */
  lemma {:induction false} FilterAllKept<T>(s: seq<T>, keep: T -> bool)
    requires forall k :: 0 <= k < |s| ==> keep(s[k])
    ensures Filter(s, keep) == s
    decreases |s|
  {
    if s != [] {
      FilterAllKept(s[1..], keep);
    }
  }

  // ---------------------------------------------------------------------------
  // case mapping (ASCII letters)

  function LowerChar(c: char): char {
    if 'A' <= c <= 'Z' then (c as int + 32) as char else c
  }

  function UpperChar(c: char): char {
    if 'a' <= c <= 'z' then (c as int - 32) as char else c
  }

  /** `s.lower()` on ASCII letters. */
  function Lower(s: string): string {
    seq(|s|, i requires 0 <= i < |s| => LowerChar(s[i]))
  }

  /** `s.upper()` on ASCII letters. */
  function Upper(s: string): string {
    seq(|s|, i requires 0 <= i < |s| => UpperChar(s[i]))
  }
}
