/** Character classes and string operations the core relies on: Python's
    `str.lower`, `str.isspace`, `str.strip`, `str.split`, `str.join` and
    `str.replace`, restricted to the ASCII behaviour of each. */
module Text {

  /** `str.isspace` on ASCII: tab, line feed, vertical tab, form feed, carriage
      return, the four information separators 0x1C-0x1F, and space. */
  predicate IsSpace(c: char) {
    9 <= c as int <= 13 || 28 <= c as int <= 32
  }

  predicate IsUpper(c: char) {
    'A' <= c <= 'Z'
  }

  /** `str.lower` on one ASCII character. */
  function LowerChar(c: char): (r: char)
    ensures !IsUpper(r)
    ensures IsUpper(c) ==> r as int == c as int + 32
    ensures !IsUpper(c) ==> r == c
  {
    if IsUpper(c) then (c as int + 32) as char else c
  }

  /** `str.lower`, as a length-preserving per-character map. */
  function Lower(s: string): (r: string) {
    seq(|s|, i requires 0 <= i < |s| => LowerChar(s[i]))
  }

  lemma LowerAppend(a: string, b: string)
    ensures Lower(a + b) == Lower(a) + Lower(b)
  {
  }

  /** The length of the longest prefix of `s` whose characters satisfy `p`. */
  function Leading(s: string, p: char -> bool): (n: nat)
    ensures n <= |s|
    ensures forall k :: 0 <= k < n ==> p(s[k])
    ensures n < |s| ==> !p(s[n])
  {
    if s == [] || !p(s[0]) then 0 else 1 + Leading(s[1..], p)
  }

  /** The length of the longest suffix of `s` whose characters satisfy `p`. */
  function Trailing(s: string, p: char -> bool): (n: nat)
    ensures n <= |s|
    ensures forall k :: |s| - n <= k < |s| ==> p(s[k])
    ensures n < |s| ==> !p(s[|s| - 1 - n])
  {
    if s == [] || !p(s[|s| - 1]) then 0 else 1 + Trailing(s[..|s| - 1], p)
  }

  /** The three properties above determine `Leading` uniquely. */
  lemma LeadingUnique(s: string, p: char -> bool, n: nat)
    requires n <= |s|
    requires forall k :: 0 <= k < n ==> p(s[k])
    requires n < |s| ==> !p(s[n])
    ensures Leading(s, p) == n
  {
  }

  lemma TrailingUnique(s: string, p: char -> bool, n: nat)
    requires n <= |s|
    requires forall k :: |s| - n <= k < |s| ==> p(s[k])
    requires n < |s| ==> !p(s[|s| - 1 - n])
    ensures Trailing(s, p) == n
  {
  }

  /** `s.strip(chars)`: drop the longest prefix and the longest suffix whose
      characters satisfy `p`. */
  function StripWhere(s: string, p: char -> bool): (r: string)
    ensures r == [] || (!p(r[0]) && !p(r[|r| - 1]))
    ensures var i := Leading(s, p);
      && i + |r| <= |s| && r == s[i..i + |r|]
      && forall k :: i + |r| <= k < |s| ==> p(s[k])
  {
    var i := Leading(s, p);
    var rest := s[i..];
    var r := rest[..|rest| - Trailing(rest, p)];
    assert r == s[i..i + |r|];
    r
  }

  /** If `s` neither starts nor ends with a character satisfying `p`, stripping
      leaves it alone. */
  lemma StripWhereNoEdges(s: string, p: char -> bool)
    requires s == [] || (!p(s[0]) && !p(s[|s| - 1]))
    ensures StripWhere(s, p) == s
  {
    if s != [] {
      LeadingUnique(s, p, 0);
      TrailingUnique(s, p, 0);
    }
  }

  /** `str.strip()` with no argument. */
  function Strip(s: string): (r: string)
    ensures r == [] || (!IsSpace(r[0]) && !IsSpace(r[|r| - 1]))
  {
    StripWhere(s, IsSpace)
  }

  /** Stripping twice strips no more than once. */
  lemma StripIdempotent(s: string)
    ensures Strip(Strip(s)) == Strip(s)
  {
    StripWhereNoEdges(Strip(s), IsSpace);
  }

  /** The length of the run of non-whitespace characters `s` starts with. */
  function WordEnd(s: string): (n: nat)
    ensures n <= |s|
    ensures forall k :: 0 <= k < n ==> !IsSpace(s[k])
    ensures n < |s| ==> IsSpace(s[n])
    ensures s != [] && !IsSpace(s[0]) ==> n > 0
  {
    if s == [] || IsSpace(s[0]) then 0 else 1 + WordEnd(s[1..])
  }

  /** The three properties above determine `WordEnd` uniquely. */
  lemma WordEndUnique(s: string, n: nat)
    requires n <= |s|
    requires forall k :: 0 <= k < n ==> !IsSpace(s[k])
    requires n < |s| ==> IsSpace(s[n])
    ensures WordEnd(s) == n
  {
  }

  /** `str.split()` with no argument: the maximal runs of non-whitespace
      characters, in order. */
  function Words(s: string): (r: seq<string>)
    ensures forall w :: w in r ==> IsWord(w)
    decreases |s|
  {
    if s == [] then []
    else if IsSpace(s[0]) then Words(s[1..])
    else
      var n := WordEnd(s);
      [s[..n]] + Words(s[n..])
  }

  /** What `str.split()` can return: a non-empty run without whitespace. */
  predicate IsWord(w: string) {
    w != [] && forall k :: 0 <= k < |w| ==> !IsSpace(w[k])
  }

  /** `sep.join(parts)`. */
  function JoinWith(parts: seq<string>, sep: string): (r: string)
    decreases |parts|
  {
    if parts == [] then []
    else if |parts| == 1 then parts[0]
    else parts[0] + sep + JoinWith(parts[1..], sep)
  }

  /** The length of the run of characters other than `sep` that `s` starts
      with. */
  function PieceEnd(s: string, sep: char): (n: nat)
    ensures n <= |s|
    ensures forall k :: 0 <= k < n ==> s[k] != sep
    ensures n < |s| ==> s[n] == sep
  {
    if s == [] || s[0] == sep then 0 else 1 + PieceEnd(s[1..], sep)
  }

  /** The properties above determine `PieceEnd` uniquely. */
  lemma PieceEndUnique(s: string, sep: char, n: nat)
    requires n <= |s|
    requires forall k :: 0 <= k < n ==> s[k] != sep
    requires n < |s| ==> s[n] == sep
    ensures PieceEnd(s, sep) == n
  {
  }

  /** `s.split(sep)` for a one-character separator: the pieces between
      separators, always at least one. */
  function Split(s: string, sep: char): (r: seq<string>)
    ensures |r| >= 1
    ensures forall piece :: piece in r ==> sep !in piece
    decreases |s|
  {
    var n := PieceEnd(s, sep);
    assert sep !in s[..n] by {
      forall k | 0 <= k < n ensures s[..n][k] != sep {
        assert s[k] != sep;
      }
    }
    if n == |s| then [s] else [s[..n]] + Split(s[n + 1..], sep)
  }

  /** `str.replace(old, new)` for one-character arguments. */
  function ReplaceChar(s: string, from: char, to: char): (r: string)
    ensures |r| == |s|
    ensures from != to ==> from !in r
  {
    seq(|s|, i requires 0 <= i < |s| => if s[i] == from then to else s[i])
  }

  // ---------------------------------------------------------------------
  // Whitespace normalisation: `" ".join(s.split())`

  /** A word followed by a separator (or by nothing) is split off first. */
  lemma WordsCons(w: string, rest: string)
    requires IsWord(w)
    requires rest == [] || IsSpace(rest[0])
    ensures Words(w + rest) == [w] + Words(rest)
  {
    var s := w + rest;
    WordEndUnique(s, |w|);
    assert s[..|w|] == w;
    assert s[|w|..] == rest;
  }

  /** Leading whitespace produces no word. */
  lemma {:induction false} WordsLeadingSpace(t: string, s: string)
    requires forall k :: 0 <= k < |t| ==> IsSpace(t[k])
    ensures Words(t + s) == Words(s)
    decreases |t|
  {
    if t != [] {
      assert (t + s)[0] == t[0];
      assert (t + s)[1..] == t[1..] + s;
      WordsLeadingSpace(t[1..], s);
    } else {
      assert t + s == s;
    }
  }

  /** Trailing whitespace produces no word. */
  lemma {:induction false} WordsTrailingSpace(s: string, t: string)
    requires forall k :: 0 <= k < |t| ==> IsSpace(t[k])
    ensures Words(s + t) == Words(s)
    decreases |s|
  {
    if s == [] {
      assert s + t == t + [];
      WordsLeadingSpace(t, []);
    } else if IsSpace(s[0]) {
      assert (s + t)[1..] == s[1..] + t;
      WordsTrailingSpace(s[1..], t);
    } else {
      var n := WordEnd(s);
      WordEndUnique(s + t, n);
      assert (s + t)[..n] == s[..n];
      assert (s + t)[n..] == s[n..] + t;
      WordsTrailingSpace(s[n..], t);
    }
  }

  /** Stripping does not change the words of a string. */
  lemma WordsStrip(s: string)
    ensures Words(Strip(s)) == Words(s)
  {
    var r := Strip(s);
    var i := Leading(s, IsSpace);
    var j := i + |r|;
    assert r == s[i..j];
    var front, back := s[..i], s[j..];
    assert forall k :: 0 <= k < |front| ==> IsSpace(front[k]);
    assert forall k :: 0 <= k < |back| ==> IsSpace(back[k]);
    assert s == front + (r + back);
    WordsLeadingSpace(front, r + back);
    WordsTrailingSpace(r, back);
  }

  /** Splitting words joined by single spaces gives the words back. */
  lemma {:induction false} WordsOfJoin(ws: seq<string>)
    requires forall w :: w in ws ==> IsWord(w)
    ensures Words(JoinWith(ws, " ")) == ws
    decreases |ws|
  {
    if ws == [] {
    } else if |ws| == 1 {
      WordsCons(ws[0], []);
      assert ws[0] + [] == ws[0];
    } else {
      var tail := JoinWith(ws[1..], " ");
      assert JoinWith(ws, " ") == ws[0] + (" " + tail);
      WordsCons(ws[0], " " + tail);
      assert (" " + tail)[1..] == tail;
      WordsOfJoin(ws[1..]);
    }
  }

  /** No leading or trailing whitespace and no two adjacent whitespace
      characters. */
  predicate SingleSpaced(s: string) {
    && (s == [] || (!IsSpace(s[0]) && !IsSpace(s[|s| - 1])))
    && forall k :: 0 <= k < |s| - 1 ==> !(IsSpace(s[k]) && IsSpace(s[k + 1]))
  }

  lemma {:induction false} JoinSingleSpaced(ws: seq<string>)
    requires forall w :: w in ws ==> IsWord(w)
    ensures SingleSpaced(JoinWith(ws, " "))
    ensures ws != [] ==> JoinWith(ws, " ") != []
    decreases |ws|
  {
    if |ws| > 1 {
      var w := ws[0];
      var tail := JoinWith(ws[1..], " ");
      JoinSingleSpaced(ws[1..]);
      assert w in ws && ws[1] in ws[1..];
      var s := w + " " + tail;
      assert JoinWith(ws, " ") == s;
      forall k | 0 <= k < |s| - 1 ensures !(IsSpace(s[k]) && IsSpace(s[k + 1])) {
        if k < |w| - 1 {
          assert s[k] == w[k];
        } else if k == |w| - 1 {
          assert s[k] == w[k];
        } else if k == |w| {
          assert s[k + 1] == tail[0];
        } else {
          assert s[k] == tail[k - |w| - 1] && s[k + 1] == tail[k - |w|];
        }
      }
      assert s[|s| - 1] == tail[|tail| - 1];
    } else if |ws| == 1 {
      assert ws[0] in ws;
    }
  }

  /** `" ".join(s.split())`. */
  function NormalizeSpaces(s: string): (r: string) {
    JoinWith(Words(Strip(s)), " ")
  }

  /** The normalised text is single-spaced, has exactly the words of the input,
      in order, and normalising it again changes nothing. */
  lemma NormalizeSpacesSpec(s: string)
    ensures SingleSpaced(NormalizeSpaces(s))
    ensures Words(NormalizeSpaces(s)) == Words(s)
    ensures NormalizeSpaces(NormalizeSpaces(s)) == NormalizeSpaces(s)
  {
    var ws := Words(Strip(s));
    JoinSingleSpaced(ws);
    WordsOfJoin(ws);
    WordsStrip(s);
    var r := NormalizeSpaces(s);
    StripWhereNoEdges(r, IsSpace);
  }

  /** Words joined by single spaces contain no whitespace but those spaces. */
  lemma {:induction false} JoinWordsOnlySpaces(ws: seq<string>)
    requires forall w :: w in ws ==> IsWord(w)
    ensures forall k :: 0 <= k < |JoinWith(ws, " ")| && IsSpace(JoinWith(ws, " ")[k]) ==> JoinWith(ws, " ")[k] == ' '
    decreases |ws|
  {
    if |ws| == 1 {
      assert ws[0] in ws;
    } else if |ws| > 1 {
      assert ws[0] in ws;
      JoinWordsOnlySpaces(ws[1..]);
      var tail := JoinWith(ws[1..], " ");
      var s := ws[0] + " " + tail;
      assert JoinWith(ws, " ") == s;
      forall k | 0 <= k < |s| && IsSpace(s[k]) ensures s[k] == ' ' {
        if k > |ws[0]| {
          assert s[k] == tail[k - |ws[0]| - 1];
        }
      }
    }
  }

  /** The only whitespace character left by normalisation is the space. */
  lemma NormalizeSpacesOnlySpaces(s: string)
    ensures forall k :: 0 <= k < |NormalizeSpaces(s)| && IsSpace(NormalizeSpaces(s)[k]) ==> NormalizeSpaces(s)[k] == ' '
  {
    JoinWordsOnlySpaces(Words(Strip(s)));
  }

  /** Two texts with the same words normalise to the same text. */
  lemma NormalizeSpacesByWords(s: string, t: string)
    requires Words(s) == Words(t)
    ensures NormalizeSpaces(s) == NormalizeSpaces(t)
  {
    WordsStrip(s);
    WordsStrip(t);
  }

  // ---------------------------------------------------------------------
  // Joining lines and splitting them again

  /** Splitting lines joined by one separator gives the lines back, as long as
      no line contains the separator. */
  lemma {:induction false} SplitJoin(parts: seq<string>, sep: char)
    requires |parts| >= 1
    requires forall piece :: piece in parts ==> sep !in piece
    ensures Split(JoinWith(parts, [sep]), sep) == parts
    decreases |parts|
  {
    var first := parts[0];
    assert sep !in first by { assert first in parts; }
    if |parts| == 1 {
      PieceEndUnique(first, sep, |first|);
    } else {
      var tail := JoinWith(parts[1..], [sep]);
      var s := first + [sep] + tail;
      assert JoinWith(parts, [sep]) == s;
      PieceEndUnique(s, sep, |first|);
      assert s[..|first|] == first;
      assert s[|first| + 1..] == tail;
      SplitJoin(parts[1..], sep);
    }
  }

  /** A separator-free piece followed by the separator splits off as one
      piece. */
  lemma SplitCons(first: string, sep: char, rest: string)
    requires sep !in first
    ensures Split(first + [sep] + rest, sep) == [first] + Split(rest, sep)
  {
    var s := first + [sep] + rest;
    PieceEndUnique(s, sep, |first|);
    assert s[..|first|] == first;
    assert s[|first| + 1..] == rest;
  }

  /** Three separator-free lines, then lines joined by the separator: splitting
      gives all of them back, in order. */
  lemma SplitThreeThenJoin(a: string, b: string, c: string, rest: seq<string>, sep: char)
    requires sep !in a && sep !in b && sep !in c
    requires |rest| >= 1
    requires forall piece :: piece in rest ==> sep !in piece
    ensures Split(a + [sep] + b + [sep] + c + [sep] + JoinWith(rest, [sep]), sep) == [a, b, c] + rest
  {
    var tail := JoinWith(rest, [sep]);
    var t2 := c + [sep] + tail;
    var t1 := b + [sep] + t2;
    assert a + [sep] + b + [sep] + c + [sep] + tail == a + [sep] + t1;
    SplitJoin(rest, sep);
    SplitCons(c, sep, tail);
    SplitCons(b, sep, t2);
    SplitCons(a, sep, t1);
    ConsThree(a, b, c, rest);
  }

  /** Joining a part in front of a non-empty list puts `sep` after it. */
  lemma JoinWithCons(w: string, ws: seq<string>, sep: string)
    requires ws != []
    ensures JoinWith([w] + ws, sep) == w + sep + JoinWith(ws, sep)
  {
    assert ([w] + ws)[1..] == ws;
  }

  /** Concatenation is associative. */
  lemma Associative<T>(x: seq<T>, y: seq<T>, z: seq<T>)
    ensures x + y + z == x + (y + z)
  {
  }

  /** Consing three elements one at a time is prefixing them as a block. */
  lemma ConsThree<T>(a: T, b: T, c: T, rest: seq<T>)
    ensures [a] + ([b] + ([c] + rest)) == [a, b, c] + rest
    ensures [a] + ([b, c] + rest) == [a, b, c] + rest
  {
  }

  /** Lines joined by the separator, then the separator and more text: the
      lines come back, followed by the pieces of that text. */
  lemma {:induction false} SplitJoinThen(parts: seq<string>, sep: char, rest: string)
    requires |parts| >= 1
    requires forall piece :: piece in parts ==> sep !in piece
    ensures Split(JoinWith(parts, [sep]) + [sep] + rest, sep) == parts + Split(rest, sep)
    decreases |parts|
  {
    assert parts[0] in parts;
    if |parts| == 1 {
      SplitCons(parts[0], sep, rest);
    } else {
      var tail := JoinWith(parts[1..], [sep]);
      assert JoinWith(parts, [sep]) + [sep] + rest == parts[0] + [sep] + (tail + [sep] + rest);
      SplitCons(parts[0], sep, tail + [sep] + rest);
      SplitJoinThen(parts[1..], sep, rest);
      assert parts == [parts[0]] + parts[1..];
    }
  }

  /** The first part joined is a prefix of the result, the last a suffix. */
  lemma {:induction false} JoinWithEnds(parts: seq<string>, sep: string)
    requires |parts| >= 1
    ensures |parts[0]| <= |JoinWith(parts, sep)|
    ensures JoinWith(parts, sep)[..|parts[0]|] == parts[0]
    ensures |parts[|parts| - 1]| <= |JoinWith(parts, sep)|
    ensures JoinWith(parts, sep)[|JoinWith(parts, sep)| - |parts[|parts| - 1]|..] == parts[|parts| - 1]
    decreases |parts|
  {
    if |parts| > 1 {
      var tail := JoinWith(parts[1..], sep);
      JoinWithEnds(parts[1..], sep);
      var last := parts[|parts| - 1];
      assert parts[1..][|parts[1..]| - 1] == last;
      var s := parts[0] + sep + tail;
      assert s[|s| - |last|..] == tail[|tail| - |last|..];
    }
  }

  /** Stripping removes exactly an edge of `p` characters on each side, when
      what lies between neither starts nor ends with one. */
  lemma StripWhereFrame(a: string, m: string, b: string, p: char -> bool)
    requires forall k :: 0 <= k < |a| ==> p(a[k])
    requires forall k :: 0 <= k < |b| ==> p(b[k])
    requires m == [] || (!p(m[0]) && !p(m[|m| - 1]))
    ensures StripWhere(a + m + b, p) == m
  {
    var s := a + m + b;
    var r := StripWhere(s, p);
    if m == [] {
      assert forall k :: 0 <= k < |s| ==> p(s[k]) by {
        forall k | 0 <= k < |s| ensures p(s[k]) {
          if k < |a| { assert s[k] == a[k]; } else { assert s[k] == b[k - |a|]; }
        }
      }
      LeadingUnique(s, p, |s|);
    } else {
      assert s[|a|] == m[0];
      LeadingUnique(s, p, |a|);
      var j := |a| + |m|;
      assert s[j - 1] == m[|m| - 1];
      assert forall k :: j <= k < |s| ==> s[k] == b[k - j];
      assert |a| + |r| == j;
      assert r == s[|a|..j];
      assert s[|a|..j] == m;
    }
  }

  /** Joining `a + b` with `sep` puts `sep` between the two joins. */
  lemma {:induction false} JoinWithAppend(a: seq<string>, b: seq<string>, sep: string)
    requires a != [] && b != []
    ensures JoinWith(a + b, sep) == JoinWith(a, sep) + sep + JoinWith(b, sep)
    decreases |a|
  {
    if |a| == 1 {
      assert (a + b)[1..] == b;
    } else {
      assert (a + b)[1..] == a[1..] + b;
      JoinWithAppend(a[1..], b, sep);
    }
  }
}
