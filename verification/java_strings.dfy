/**
 The two string operations the image conversion relies on: Java's
 `String.split` with a one-character literal separator and the default
 limit of zero, and Guava's `Joiner.on(sep).join`.

 `SplitAll` cuts a string at every separator and keeps every piece. Joining
 its pieces gives the string back (`SplitJoin`), and it undoes `Join` on
 non-empty lists of separator-free pieces (`JoinSplit`).
 `JavaSplit` is what `String.split` returns: the pieces of `SplitAll`
 with the trailing empty ones removed, except that a string without any
 separator comes back whole (so `""` splits to `[""]`).
 */
module JavaStrings {

  /** Total number of characters in `pieces`. */
  function TotalLength(pieces: seq<string>): nat
  {
    if |pieces| == 0 then 0 else |pieces[0]| + TotalLength(pieces[1..])
  }

  /** Concatenation of `pieces` with `sep` between neighbours: one separator fewer than pieces. */
  function Join(pieces: seq<string>, sep: char): (r: string)
    ensures |pieces| == 0 ==> r == ""
    ensures |pieces| >= 1 ==> |r| == TotalLength(pieces) + |pieces| - 1
  {
    if |pieces| == 0 then ""
    else if |pieces| == 1 then pieces[0]
    else pieces[0] + [sep] + Join(pieces[1..], sep)
  }

  /** Every piece between separators, empty ones included; never an empty list. */
  function SplitAll(s: string, d: char): (r: seq<string>)
    ensures |r| >= 1
    decreases |s|
  {
    if |s| == 0 then [""]
    else
      var rest := SplitAll(s[1..], d);
      if s[0] == d then [""] + rest
      else [[s[0]] + rest[0]] + rest[1..]
  }

  /** Drops the empty pieces at the end of `p`, and nothing else. */
  function DropTrailingEmpty(p: seq<string>): (r: seq<string>)
    ensures |r| <= |p| && r == p[..|r|]
    ensures forall i :: |r| <= i < |p| ==> p[i] == ""
    ensures |r| == 0 || r[|r| - 1] != ""
  {
    if |p| == 0 then []
    else if p[|p| - 1] == "" then DropTrailingEmpty(p[..|p| - 1])
    else p
  }

  /** `s.split(d)` in Java, for a separator that is not a regular-expression metacharacter. */
  function JavaSplit(s: string, d: char): (r: seq<string>)
    ensures d !in s ==> r == [s]
    ensures d in s ==>
      var all := SplitAll(s, d);
      && |r| <= |all| && r == all[..|r|]
      && (forall i :: |r| <= i < |all| ==> all[i] == "")
      && (|r| == 0 || r[|r| - 1] != "")
  {
    if d !in s then [s]
    else DropTrailingEmpty(SplitAll(s, d))
  }

  /** No piece of a split contains the separator. */
  lemma {:induction false} SplitAllSeparatorFree(s: string, d: char)
    ensures forall i :: 0 <= i < |SplitAll(s, d)| ==> d !in SplitAll(s, d)[i]
    decreases |s|
  {
    if |s| > 0 {
      SplitAllSeparatorFree(s[1..], d);
    }
  }

  /** No piece that `String.split` returns contains the separator. */
  lemma JavaSplitSeparatorFree(s: string, d: char)
    ensures forall i :: 0 <= i < |JavaSplit(s, d)| ==> d !in JavaSplit(s, d)[i]
  {
    var r := JavaSplit(s, d);
    if d in s {
      var all := SplitAll(s, d);
      SplitAllSeparatorFree(s, d);
      forall i | 0 <= i < |r|
        ensures d !in r[i]
      {
        assert r[i] == all[..|r|][i] == all[i];
      }
    } else {
      assert r == [s];
    }
  }

  /** Joining the pieces of a split gives back the string. */
  lemma {:induction false} SplitJoin(s: string, d: char)
    ensures Join(SplitAll(s, d), d) == s
    decreases |s|
  {
    if |s| > 0 {
      var rest := SplitAll(s[1..], d);
      SplitJoin(s[1..], d);
      assert s == [s[0]] + s[1..];
      if s[0] != d && |rest| > 1 {
        assert Join(rest, d) == rest[0] + [d] + Join(rest[1..], d);
      }
    }
  }

  /** A string without the separator is a single piece. */
  lemma {:induction false} SplitWithoutSeparator(x: string, d: char)
    requires d !in x
    ensures SplitAll(x, d) == [x]
    decreases |x|
  {
    if |x| > 0 {
      SplitWithoutSeparator(x[1..], d);
      assert x == [x[0]] + x[1..];
    }
  }

  /** Splitting stops at the first separator: the text before it is the first piece. */
  lemma {:induction false} SplitAtFirstSeparator(x: string, t: string, d: char)
    requires d !in x
    ensures SplitAll(x + [d] + t, d) == [x] + SplitAll(t, d)
    decreases |x|
  {
    if |x| == 0 {
      assert x + [d] + t == [d] + t;
      assert ([d] + t)[1..] == t;
    } else {
      var s := x + [d] + t;
      assert s[1..] == x[1..] + [d] + t;
      SplitAtFirstSeparator(x[1..], t, d);
      assert x == [x[0]] + x[1..];
    }
  }

  /** Splitting a join of separator-free pieces gives back exactly those pieces. */
  lemma {:induction false} JoinSplit(p: seq<string>, d: char)
    requires |p| >= 1
    requires forall i :: 0 <= i < |p| ==> d !in p[i]
    ensures SplitAll(Join(p, d), d) == p
    decreases |p|
  {
    if |p| == 1 {
      SplitWithoutSeparator(p[0], d);
    } else {
      JoinSplit(p[1..], d);
      SplitAtFirstSeparator(p[0], Join(p[1..], d), d);
      assert p == [p[0]] + p[1..];
    }
  }

  /** Joining a concatenation puts one separator at the seam. */
  lemma {:induction false} JoinAppend(a: seq<string>, b: seq<string>, d: char)
    requires |a| >= 1 && |b| >= 1
    ensures Join(a + b, d) == Join(a, d) + [d] + Join(b, d)
    decreases |a|
  {
    if |a| == 1 {
      assert (a + b)[1..] == b;
    } else {
      JoinAppend(a[1..], b, d);
      assert (a + b)[1..] == a[1..] + b;
    }
  }

  /** Every character of a piece occurs in the joined string. */
  lemma {:induction false} JoinContainsPieces(p: seq<string>, d: char, i: nat)
    requires i < |p|
    ensures forall c :: c in p[i] ==> c in Join(p, d)
    decreases |p|
  {
    if |p| > 1 && i > 0 {
      JoinContainsPieces(p[1..], d, i - 1);
    }
  }

  /** Every character of every split piece comes from the split string. */
  lemma SplitPiecesFromString(s: string, d: char, i: nat)
    requires i < |SplitAll(s, d)|
    ensures forall c :: c in SplitAll(s, d)[i] ==> c in s
  {
    SplitJoin(s, d);
    JoinContainsPieces(SplitAll(s, d), d, i);
  }

  /** A non-empty string that does not end with the separator has a non-empty last piece. */
  lemma LastPieceNonEmpty(s: string, d: char)
    requires |s| > 0 && s[|s| - 1] != d
    ensures var all := SplitAll(s, d); all[|all| - 1] != ""
  {
    var all := SplitAll(s, d);
    SplitJoin(s, d);
    if |all| >= 2 {
      var init := all[..|all| - 1];
      assert all == init + [all[|all| - 1]];
      JoinAppend(init, [all[|all| - 1]], d);
    }
  }

  /**
   When the string is empty or does not end with the separator, `String.split`
   drops nothing: it returns every piece, and joining them gives the string back.
   */
  lemma JavaSplitJoin(s: string, d: char)
    requires |s| == 0 || s[|s| - 1] != d
    ensures JavaSplit(s, d) == SplitAll(s, d)
    ensures Join(JavaSplit(s, d), d) == s
  {
    SplitJoin(s, d);
    if d !in s {
      SplitWithoutSeparator(s, d);
    } else {
      LastPieceNonEmpty(s, d);
    }
  }

  /**
   `String.split` undoes `Join` on separator-free pieces, provided the last
   piece is not empty (a lone piece may be anything without the separator).
   */
  lemma JavaSplitOfJoin(p: seq<string>, d: char)
    requires |p| >= 1
    requires forall i :: 0 <= i < |p| ==> d !in p[i]
    requires |p| == 1 || p[|p| - 1] != ""
    ensures JavaSplit(Join(p, d), d) == p
  {
    JoinSplit(p, d);
    if |p| == 1 {
      SplitWithoutSeparator(p[0], d);
    } else {
      assert Join(p, d) == p[0] + [d] + Join(p[1..], d);
      assert d in Join(p, d);
    }
  }

  /** Every character of every piece `String.split` returns comes from the split string. */
  lemma JavaSplitPiecesFromString(s: string, d: char, i: nat)
    requires i < |JavaSplit(s, d)|
    ensures forall c :: c in JavaSplit(s, d)[i] ==> c in s
  {
    if d in s {
      SplitPiecesFromString(s, d, i);
    }
  }

  /**
   Joining the middle pieces of a split with another separator `e` that the
   string does not contain can be undone by splitting on `e`.
   */
  lemma MiddlePiecesSplitBack(s: string, d: char, e: char)
    requires e !in s
    requires |JavaSplit(s, d)| >= 3
    ensures var p := JavaSplit(s, d);
      SplitAll(Join(p[1..|p| - 1], e), e) == p[1..|p| - 1]
  {
    var p := JavaSplit(s, d);
    var middle := p[1..|p| - 1];
    forall j | 0 <= j < |middle|
      ensures e !in middle[j]
    {
      JavaSplitPiecesFromString(s, d, j + 1);
    }
    JoinSplit(middle, e);
  }

  /** A string without `-` comes back whole, even the empty one. */
  lemma JavaSplitEmpty()
    ensures JavaSplit("", '-') == [""]
  {
  }

  /** A string of separators only splits to no pieces at all. */
  lemma JavaSplitOnlySeparator()
    ensures JavaSplit("-", '-') == []
  {
    var all := ["", ""];
    assert Join(all, '-') == "-";
    JoinSplit(all, '-');
    assert '-' in "-";
  }

  /** An empty piece between two separators is kept. */
  lemma JavaSplitInteriorEmpty()
    ensures JavaSplit("a--b", '-') == ["a", "", "b"]
  {
    var p := ["a", "", "b"];
    assert p[1..][1..] == ["b"];
    assert Join(p, '-') == "a--b";
    JavaSplitOfJoin(p, '-');
  }

  /** An empty piece before a leading separator is kept. */
  lemma JavaSplitLeadingEmpty()
    ensures JavaSplit("-a", '-') == ["", "a"]
  {
    var p := ["", "a"];
    assert Join(p, '-') == "-a";
    JavaSplitOfJoin(p, '-');
  }

  /** Empty pieces after trailing separators are dropped. */
  lemma JavaSplitTrailingEmpty()
    ensures JavaSplit("a-b--", '-') == ["a", "b"]
  {
    var all := ["a", "b", "", ""];
    assert all[1..][1..][1..] == [""];
    assert Join(all, '-') == "a-b--";
    JoinSplit(all, '-');
    assert '-' in "a-b--";
    assert all[..2] == ["a", "b"];
  }
}
