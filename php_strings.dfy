/** Models of the PHP string built-ins the chapter script relies on:
    explode and implode on a one-character delimiter, substr_count and
    str_replace on one character, and trim with its default character set.
    Strings are sequences of characters. */
module PhpStrings {

  /** The characters PHP's trim() strips when no character list is given:
      space, tab, line feed, carriage return, NUL and vertical tab. */
  predicate IsTrimSpace(c: char) {
    c == ' ' || c == '\t' || c == '\n' || c == '\r' || c == '\0' || c == '\U{B}'
  }

  /** substr_count(s, c): the number of occurrences of c in s. */
  function Count(s: string, c: char): nat {
    multiset(s)[c]
  }

  /** str_replace(c, '', s): s with every occurrence of c deleted. */
  function Remove(s: string, c: char): string {
    if s == [] then []
    else (if s[0] == c then [] else [s[0]]) + Remove(s[1..], c)
  }

  /** After the deletion c no longer occurs, and every other character occurs
      exactly as often as before. */
  lemma {:induction false} RemoveCounts(s: string, c: char)
    ensures c !in Remove(s, c)
    ensures multiset(Remove(s, c)) == multiset(s)[c := 0]
  {
    if s != [] {
      RemoveCounts(s[1..], c);
      assert s == [s[0]] + s[1..];
    }
  }

  /** Deletion works character by character: it distributes over concatenation,
      so the characters that remain keep their order. */
  lemma {:induction false} RemoveAppend(a: string, b: string, c: char)
    ensures Remove(a + b, c) == Remove(a, c) + Remove(b, c)
  {
    if a != [] {
      var head := if a[0] == c then [] else [a[0]];
      assert (a + b)[0] == a[0];
      assert (a + b)[1..] == a[1..] + b;
      assert Remove(a + b, c) == head + Remove(a[1..] + b, c);
      RemoveAppend(a[1..], b, c);
      assert Remove(a, c) == head + Remove(a[1..], c);
    } else {
      assert a + b == b;
    }
  }

  /** Deleting a character that does not occur changes nothing. */
  lemma {:induction false} RemoveAbsent(s: string, c: char)
    requires c !in s
    ensures Remove(s, c) == s
  {
    if s != [] {
      RemoveAbsent(s[1..], c);
      assert [s[0]] + s[1..] == s;
    }
  }

  /** ltrim(s): s without its leading trim characters. */
  function TrimLeft(s: string): (r: string)
    ensures |r| <= |s|
  {
    if s != [] && IsTrimSpace(s[0]) then TrimLeft(s[1..]) else s
  }

  /** rtrim(s): s without its trailing trim characters. */
  function TrimRight(s: string): (r: string)
    ensures |r| <= |s|
  {
    if s != [] && IsTrimSpace(s[|s| - 1]) then TrimRight(s[..|s| - 1]) else s
  }

  /** ltrim(s) is the longest suffix of s that does not begin with a trim
      character: everything it cuts off is a trim character. */
  lemma {:induction false} TrimLeftSpec(s: string)
    ensures TrimLeft(s) == s[|s| - |TrimLeft(s)|..]
    ensures forall k :: 0 <= k < |s| - |TrimLeft(s)| ==> IsTrimSpace(s[k])
    ensures TrimLeft(s) == [] || !IsTrimSpace(TrimLeft(s)[0])
  {
    if s != [] && IsTrimSpace(s[0]) {
      TrimLeftSpec(s[1..]);
    }
  }

  /** rtrim(s) is the longest prefix of s that does not end with a trim
      character: everything it cuts off is a trim character. */
  lemma {:induction false} TrimRightSpec(s: string)
    ensures TrimRight(s) == s[..|TrimRight(s)|]
    ensures forall k :: |TrimRight(s)| <= k < |s| ==> IsTrimSpace(s[k])
    ensures TrimRight(s) == [] || !IsTrimSpace(TrimRight(s)[|TrimRight(s)| - 1])
  {
    if s != [] && IsTrimSpace(s[|s| - 1]) {
      TrimRightSpec(s[..|s| - 1]);
    }
  }

  /** r is the piece of s that starts at offset i, and everything of s before
      and after that piece is a trim character. */
  ghost predicate TrimmedAt(s: string, r: string, i: nat) {
    i <= |s| - |r| && r == s[i..i + |r|]
    && (forall k :: 0 <= k < i ==> IsTrimSpace(s[k]))
    && (forall k :: i + |r| <= k < |s| ==> IsTrimSpace(s[k]))
  }

  /** trim(s): s with its leading and trailing trim characters removed. */
  function Trim(s: string): string {
    TrimRight(TrimLeft(s))
  }

  /** What trim() keeps is a contiguous piece of s; everything cut off on
      either side is a trim character, and the piece neither begins nor ends
      with one. */
  lemma TrimSpec(s: string)
    ensures TrimmedAt(s, Trim(s), |s| - |TrimLeft(s)|)
    ensures Trim(s) == [] || (!IsTrimSpace(Trim(s)[0]) && !IsTrimSpace(Trim(s)[|Trim(s)| - 1]))
  {
    TrimLeftSpec(s);
    TrimRightSpec(TrimLeft(s));
    TrimRightOfSuffix(s, |s| - |TrimLeft(s)|);
  }

  /** Trimming the right end of a suffix of s: what comes after the result in
      s is all trim characters. */
  lemma TrimRightOfSuffix(s: string, i: nat)
    requires i <= |s|
    ensures var r := TrimRight(s[i..]);
            r == s[i..i + |r|] && forall k :: i + |r| <= k < |s| ==> IsTrimSpace(s[k])
  {
    var l := s[i..];
    var r := TrimRight(l);
    TrimRightSpec(l);
    assert r == l[..|r|];
    forall k | i + |r| <= k < |s| ensures IsTrimSpace(s[k]) {
      assert s[k] == l[k - i];
    }
  }

  /** Trimming only takes characters away: every character of the result
      occurs in s at least as often. */
  lemma TrimKeepsCharacters(s: string)
    ensures multiset(Trim(s)) <= multiset(s)
  {
    TrimSpec(s);
    var r := Trim(s);
    var i := |s| - |TrimLeft(s)|;
    assert r == s[i..i + |r|];
    assert s == s[..i] + r + s[i + |r|..];
  }

  /** explode(sep, s) for a one-character delimiter: the pieces of s between
      occurrences of sep. There is always at least one piece: explode of the
      empty string is a list holding the empty string. */
  function Split(s: string, sep: char): (pieces: seq<string>)
    ensures |pieces| >= 1
    ensures s == [] ==> pieces == [[]]
  {
    if s == [] then [[]]
    else
      var rest := Split(s[1..], sep);
      if s[0] == sep then [[]] + rest
      else [[s[0]] + rest[0]] + rest[1..]
  }

  /** No piece of explode(sep, s) contains the delimiter. */
  lemma {:induction false} SplitPiecesLackSeparator(s: string, sep: char)
    ensures forall k :: 0 <= k < |Split(s, sep)| ==> sep !in Split(s, sep)[k]
  {
    if s != [] {
      SplitPiecesLackSeparator(s[1..], sep);
    }
  }

  /** implode(sep, xs) for a one-character glue: the pieces in order with sep
      between neighbours; the empty list gives the empty string. */
  function Join(xs: seq<string>, sep: char): string
  {
    if |xs| == 0 then []
    else if |xs| == 1 then xs[0]
    else xs[0] + [sep] + Join(xs[1..], sep)
  }

  /** A string without the delimiter explodes into itself alone. */
  lemma {:induction false} SplitWithoutSeparator(s: string, sep: char)
    requires sep !in s
    ensures Split(s, sep) == [s]
  {
    if s != [] {
      SplitWithoutSeparator(s[1..], sep);
      assert [s[0]] + s[1..] == s;
    }
  }

  /** Exploding a string made of two parts glued with the delimiter gives the
      pieces of the first part followed by the pieces of the second. */
  lemma {:induction false} SplitConcat(a: string, b: string, sep: char)
    ensures Split(a + [sep] + b, sep) == Split(a, sep) + Split(b, sep)
  {
    if a == [] {
      assert a + [sep] + b == [sep] + b;
      SplitCons(sep, b, sep);
    } else {
      var t := a[1..];
      assert a == [a[0]] + t;
      assert a + [sep] + b == [a[0]] + (t + [sep] + b);
      SplitConcat(t, b, sep);
      SplitCons(a[0], t + [sep] + b, sep);
      SplitCons(a[0], t, sep);
      ExtendFirstPiece(a[0] == sep, a[0], Split(t, sep), Split(b, sep));
    }
  }

  /** Sequence bookkeeping for SplitConcat: adding a character in front of the
      first of the pieces rt + rb, or a new empty piece, only touches rt. */
  lemma ExtendFirstPiece(startsNew: bool, c: char, rt: seq<string>, rb: seq<string>)
    requires |rt| >= 1
    ensures (if startsNew then [[]] + (rt + rb) else [[c] + (rt + rb)[0]] + (rt + rb)[1..])
            == (if startsNew then [[]] + rt else [[c] + rt[0]] + rt[1..]) + rb
  {
    if !startsNew {
      assert (rt + rb)[0] == rt[0];
      assert (rt + rb)[1..] == rt[1..] + rb;
    }
  }

  /** explode of a string given by its first character and the rest. */
  lemma SplitCons(c: char, t: string, sep: char)
    ensures Split([c] + t, sep)
            == if c == sep then [[]] + Split(t, sep)
               else [[c] + Split(t, sep)[0]] + Split(t, sep)[1..]
  {
    assert ([c] + t)[0] == c;
    assert ([c] + t)[1..] == t;
  }

  /** implode undoes explode: gluing the pieces back gives the original string. */
  lemma {:induction false} JoinSplit(s: string, sep: char)
    ensures Join(Split(s, sep), sep) == s
  {
    if s != [] {
      var rest := Split(s[1..], sep);
      JoinSplit(s[1..], sep);
      if s[0] == sep {
        assert ([[]] + rest)[1..] == rest;
        assert [sep] + s[1..] == s;
      } else {
        var pieces := [[s[0]] + rest[0]] + rest[1..];
        assert pieces[1..] == rest[1..];
        if |rest| == 1 {
          assert Join(rest, sep) == rest[0];
        } else {
          assert Join(rest, sep) == rest[0] + [sep] + Join(rest[1..], sep);
        }
        assert [s[0]] + s[1..] == s;
      }
    }
  }

  /** explode undoes implode when no piece contains the delimiter, except for
      the empty list: implode of it is the empty string, which explodes into
      one empty piece. */
  lemma {:induction false} SplitJoin(xs: seq<string>, sep: char)
    requires forall k :: 0 <= k < |xs| ==> sep !in xs[k]
    ensures Split(Join(xs, sep), sep) == if xs == [] then [[]] else xs
  {
    if |xs| == 1 {
      SplitWithoutSeparator(xs[0], sep);
    } else if |xs| > 1 {
      SplitJoin(xs[1..], sep);
      SplitWithoutSeparator(xs[0], sep);
      SplitConcat(xs[0], Join(xs[1..], sep), sep);
      assert [xs[0]] + xs[1..] == xs;
    }
  }
}
