/** The string operations of Go's `strings` package and of Go's `<` on strings
    that the program relies on. Strings are sequences of Unicode scalar values;
    ordering them by scalar value is the same as ordering their UTF-8 bytes. */
module Text {

  /** `strings.SplitN(s, " ", 2)[0]`: the text of `s` before its first space.
      The three ensures clauses determine the result uniquely. */
  function FirstToken(s: string): (k: string)
    ensures k <= s
    ensures ' ' !in k
    ensures |k| < |s| ==> s[|k|] == ' '
  {
    if s == [] || s[0] == ' ' then [] else [s[0]] + FirstToken(s[1..])
  }

  /** A string without spaces is its own first token. */
  lemma FirstTokenOfWord(s: string)
    requires ' ' !in s
    ensures FirstToken(s) == s
  {
  }

  /** A string whose first space is at `n` has the text before it as its first
      token. */
  lemma FirstTokenBefore(s: string, n: nat)
    requires n < |s| && s[n] == ' ' && ' ' !in s[..n]
    ensures FirstToken(s) == s[..n]
  {
    var k := FirstToken(s);
    assert forall i :: 0 <= i < n ==> s[..n][i] == s[i];
    assert k == s[..|k|];
  }

  /** The pieces joined back with `sep` between them (the inverse of `Split`). */
  function Join(parts: seq<string>, sep: char): (s: string)
    requires |parts| >= 1
    ensures parts[0] <= s
  {
    if |parts| == 1 then parts[0] else parts[0] + [sep] + Join(parts[1..], sep)
  }

  /** With two or more elements, the first is followed by the separator and
      then by the join of the rest. */
  lemma JoinShape(parts: seq<string>, sep: char)
    requires |parts| >= 2
    ensures var s := Join(parts, sep);
      |s| > |parts[0]| && s[..|parts[0]|] == parts[0] && s[|parts[0]|] == sep
      && s[|parts[0]| + 1..] == Join(parts[1..], sep)
  {
  }

  /** `strings.Split(s, string(sep))`: the pieces of `s` between occurrences of
      `sep`, always at least one (the empty string splits into one empty piece). */
  function Split(s: string, sep: char): (parts: seq<string>)
    ensures |parts| >= 1
    ensures forall i :: 0 <= i < |parts| ==> sep !in parts[i]
    ensures Join(parts, sep) == s
  {
    if s == [] then [[]]
    else
      var rest := Split(s[1..], sep);
      if s[0] == sep then
        [[]] + rest
      else
        var parts := [[s[0]] + rest[0]] + rest[1..];
        assert |rest| > 1 ==> parts[1..] == rest[1..];
        parts
  }

  /** A piece without `sep` splits into itself. */
  lemma {:induction false} SplitWord(w: string, sep: char)
    requires sep !in w
    ensures Split(w, sep) == [w]
  {
    if w != [] {
      SplitWord(w[1..], sep);
      assert [w[0]] + w[1..] == w;
    }
  }

  /** Splitting a piece, a separator and a rest gives the piece followed by the
      pieces of the rest. */
  lemma {:induction false} SplitAfterWord(w: string, sep: char, rest: string)
    requires sep !in w
    ensures Split(w + [sep] + rest, sep) == [w] + Split(rest, sep)
  {
    var s := w + [sep] + rest;
    if w == [] {
      assert s[1..] == rest;
    } else {
      assert s[1..] == w[1..] + [sep] + rest;
      SplitAfterWord(w[1..], sep, rest);
      assert [w[0]] + w[1..] == w;
    }
  }

  /** Joining pieces that hold no separator and splitting again gives the
      pieces back. */
  lemma {:induction false} SplitJoin(parts: seq<string>, sep: char)
    requires |parts| >= 1
    requires forall i :: 0 <= i < |parts| ==> sep !in parts[i]
    ensures Split(Join(parts, sep), sep) == parts
  {
    if |parts| == 1 {
      SplitWord(parts[0], sep);
    } else {
      SplitAfterWord(parts[0], sep, Join(parts[1..], sep));
      SplitJoin(parts[1..], sep);
      assert [parts[0]] + parts[1..] == parts;
    }
  }

  /** `len(strings.Split(s, sep)) >= 2` exactly when `s` contains `sep`. */
  lemma SplitHasTwoPieces(s: string, sep: char)
    ensures |Split(s, sep)| >= 2 <==> sep in s
  {
    var parts := Split(s, sep);
    if |parts| >= 2 {
      assert s == parts[0] + [sep] + Join(parts[1..], sep);
      assert s[|parts[0]|] == sep;
    } else {
      assert s == parts[0];
    }
  }

  /** Go's `a < b` on strings: lexicographic, a proper prefix coming first. */
  predicate LexLess(a: string, b: string)
  {
    if a == [] then b != []
    else if b == [] then false
    else if a[0] != b[0] then a[0] < b[0]
    else LexLess(a[1..], b[1..])
  }

  /** `LexLess` agrees with the textbook definition: `a` is a proper prefix of
      `b`, or the first position where they differ holds a smaller character
      in `a`. */
  lemma {:induction false} LexLessMeaning(a: string, b: string)
    ensures LexLess(a, b) <==>
      (a < b || exists i :: 0 <= i < |a| && i < |b| && a[..i] == b[..i] && a[i] < b[i])
  {
    if a != [] && b != [] {
      if a[0] == b[0] {
        LexLessMeaning(a[1..], b[1..]);
        TextbookSameHead(a, b);
      } else {
        TextbookOtherHead(a, b);
      }
    }
  }

  /** The textbook lexicographic order: a proper prefix, or a smaller
      character where the strings first differ. */
  predicate TextbookLess(a: string, b: string)
  {
    a < b || exists i :: 0 <= i < |a| && i < |b| && a[..i] == b[..i] && a[i] < b[i]
  }

  /** Strings with the same first character compare as their tails. */
  lemma TextbookSameHead(a: string, b: string)
    requires a != [] && b != [] && a[0] == b[0]
    ensures TextbookLess(a, b) <==> TextbookLess(a[1..], b[1..])
  {
    PrefixSameHead(a, b);
    if exists i :: 0 <= i < |a| && i < |b| && a[..i] == b[..i] && a[i] < b[i] {
      var i :| 0 <= i < |a| && i < |b| && a[..i] == b[..i] && a[i] < b[i];
      DifferenceToTails(a, b, i);
    }
    if exists j :: 0 <= j < |a[1..]| && j < |b[1..]| && a[1..][..j] == b[1..][..j] && a[1..][j] < b[1..][j] {
      var j :| 0 <= j < |a[1..]| && j < |b[1..]| && a[1..][..j] == b[1..][..j] && a[1..][j] < b[1..][j];
      DifferenceFromTails(a, b, j);
    }
  }

  /** Behind a shared first character, prefixes are prefixes of the tails. */
  lemma PrefixSameHead(a: string, b: string)
    requires a != [] && b != [] && a[0] == b[0]
    ensures a < b <==> a[1..] < b[1..]
  {
    if a[1..] < b[1..] {
      assert a == [a[0]] + a[1..] && b == [b[0]] + b[1..];
    }
    if a < b {
      assert a[1..] < b[1..];
    }
  }

  /** A first difference of the strings is one of their tails, a place
      earlier. */
  lemma DifferenceToTails(a: string, b: string, i: nat)
    requires a != [] && b != [] && a[0] == b[0]
    requires i < |a| && i < |b| && a[..i] == b[..i] && a[i] < b[i]
    ensures 0 < i && a[1..][..i - 1] == b[1..][..i - 1] && a[1..][i - 1] < b[1..][i - 1]
  {
    assert i > 0;
    assert a[1..][..i - 1] == a[..i][1..] == b[..i][1..] == b[1..][..i - 1];
  }

  /** A first difference of the tails is one of the strings, a place later. */
  lemma DifferenceFromTails(a: string, b: string, j: nat)
    requires a != [] && b != [] && a[0] == b[0]
    requires j < |a| - 1 && j < |b| - 1 && a[1..][..j] == b[1..][..j] && a[1..][j] < b[1..][j]
    ensures a[..j + 1] == b[..j + 1] && a[j + 1] < b[j + 1]
  {
    assert a[..j + 1] == [a[0]] + a[1..][..j];
    assert b[..j + 1] == [b[0]] + b[1..][..j];
  }

  /** Strings with different first characters compare by them. */
  lemma TextbookOtherHead(a: string, b: string)
    requires a != [] && b != [] && a[0] != b[0]
    ensures TextbookLess(a, b) <==> a[0] < b[0]
  {
    assert a[..0] == b[..0];
    forall i | 0 < i < |a| && i < |b| ensures a[..i] != b[..i] {
      assert a[..i][0] != b[..i][0];
    }
  }

  lemma {:induction false} LexIrreflexive(a: string)
    ensures !LexLess(a, a)
  {
    if a != [] {
      LexIrreflexive(a[1..]);
    }
  }

  lemma {:induction false} LexTransitive(a: string, b: string, c: string)
    requires LexLess(a, b) && LexLess(b, c)
    ensures LexLess(a, c)
  {
    if a != [] && b != [] && c != [] && a[0] == b[0] && b[0] == c[0] {
      LexTransitive(a[1..], b[1..], c[1..]);
    }
  }

  lemma {:induction false} LexTotal(a: string, b: string)
    requires a != b
    ensures LexLess(a, b) || LexLess(b, a)
  {
    if a != [] && b != [] && a[0] == b[0] {
      assert a == [a[0]] + a[1..] && b == [b[0]] + b[1..];
      LexTotal(a[1..], b[1..]);
    }
  }
}
