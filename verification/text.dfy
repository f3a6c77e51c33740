/** The `java.lang.String` operations the queries rely on, on `seq<char>`:
    `toLowerCase`, `equalsIgnoreCase` and `contains` (with case folding
    restricted to ASCII), `trim`, and `split` on a one-character separator. */
module Text {

  /** `Character.toLowerCase` on the ASCII letters; every other character is kept. */
  function LowerChar(c: char): char
  {
    if 'A' <= c <= 'Z' then (c as int + 32) as char else c
  }

  /** `String.toLowerCase`, character by character. */
  function Lower(s: string): string
  {
    seq(|s|, i requires 0 <= i < |s| => LowerChar(s[i]))
  }

  /** `a.equalsIgnoreCase(b)`: equal after lower-casing, so equal lengths in particular. */
  predicate EqualsIgnoreCase(a: string, b: string)
  {
    Lower(a) == Lower(b)
  }

  /** `t` occurs in `s` starting at position `i`. */
  predicate OccursAt(s: string, t: string, i: nat)
  {
    i + |t| <= |s| && s[i..i + |t|] == t
  }

  /** `s.contains(t)`: `t` occurs in `s` at some position. */
  predicate Contains(s: string, t: string)
  {
    exists i: nat :: i <= |s| - |t| && OccursAt(s, t, i)
  }

  /** Every string contains the empty string. */
  lemma ContainsEmpty(s: string)
    ensures Contains(s, "")
  {
    assert OccursAt(s, "", 0);
  }

  /** A string cannot contain a text with a character it lacks. */
  lemma ContainsNeedsChar(s: string, t: string, c: char)
    requires c in t && c !in s
    ensures !Contains(s, t)
  {
  }

  /** A lower-case letter appears in `Lower(s)` only where `s` has it in either case. */
  lemma LowerLacks(s: string, c: char)
    requires 'a' <= c <= 'z'
    requires c !in s && (c as int - 32) as char !in s
    ensures c !in Lower(s)
  {
  }

  // ---------------------------------------------------------------------
  // trim

  /** The characters `String.trim` removes: every code point up to U+0020. */
  predicate IsSpace(c: char)
  {
    c <= ' '
  }

  function TrimLeading(s: string): (r: string)
    ensures |r| <= |s| && r == s[|s| - |r|..]
    ensures forall i :: 0 <= i < |s| - |r| ==> IsSpace(s[i])
    ensures r == [] || !IsSpace(r[0])
  {
    if s != [] && IsSpace(s[0]) then TrimLeading(s[1..]) else s
  }

  function TrimTrailing(s: string): (r: string)
    ensures |r| <= |s| && r == s[..|r|]
    ensures forall i :: |r| <= i < |s| ==> IsSpace(s[i])
    ensures r == [] || !IsSpace(r[|r| - 1])
  {
    if s != [] && IsSpace(s[|s| - 1]) then TrimTrailing(s[..|s| - 1]) else s
  }

  /** `String.trim`: drop the leading, then the trailing, characters up to U+0020. */
  function Trim(s: string): string
  {
    TrimTrailing(TrimLeading(s))
  }

  /** `s.trim().isEmpty()`, the guard every input field of the user interface goes through. */
  predicate IsBlank(s: string)
  {
    Trim(s) == []
  }

  /** A trimmed string begins and ends with a character that `trim` keeps. */
  lemma TrimEdges(s: string)
    ensures var t := Trim(s); t == [] || (!IsSpace(t[0]) && !IsSpace(t[|t| - 1]))
  {
    var u := TrimLeading(s);
    var t := TrimTrailing(u);
    if t != [] {
      assert t[0] == u[0];
    }
  }

  /** A string is blank exactly when every character in it is one `trim` removes. */
  lemma BlankIff(s: string)
    ensures IsBlank(s) <==> forall i :: 0 <= i < |s| ==> IsSpace(s[i])
  {
    var u := TrimLeading(s);
    if u != [] {
      assert !IsSpace(s[|s| - |u|]);
    }
  }

  /** Trimming twice is trimming once: stored fields are already trimmed. */
  lemma TrimIdempotent(s: string)
    ensures Trim(Trim(s)) == Trim(s)
  {
    TrimEdges(s);
  }

  // ---------------------------------------------------------------------
  // split

  /** Every piece of `s` between separators, including empty ones:
      `n` separators give `n + 1` pieces. */
  function Pieces(s: string, sep: char): (r: seq<string>)
    ensures |r| >= 1
  {
    if s == [] then [[]]
    else
      var rest := Pieces(s[1..], sep);
      if s[0] == sep then [[]] + rest else [[s[0]] + rest[0]] + rest[1..]
  }

  /** The pieces put back together with the separator between them. */
  function Join(pieces: seq<string>, sep: char): string
    requires |pieces| >= 1
    decreases |pieces|
  {
    if |pieces| == 1 then pieces[0] else pieces[0] + [sep] + Join(pieces[1..], sep)
  }

  function DropTrailingEmpty(pieces: seq<string>): (r: seq<string>)
    ensures |r| <= |pieces| && r == pieces[..|r|]
    ensures forall i :: |r| <= i < |pieces| ==> pieces[i] == []
    decreases |pieces|
  {
    if pieces != [] && pieces[|pieces| - 1] == [] then DropTrailingEmpty(pieces[..|pieces| - 1]) else pieces
  }

  /** `s.split(String.valueOf(sep))`: a string without the separator is its own
      only piece; otherwise the pieces with the trailing empty ones removed. */
  function Split(s: string, sep: char): seq<string>
  {
    if sep !in s then [s] else DropTrailingEmpty(Pieces(s, sep))
  }

  /** No piece contains the separator. */
  lemma {:induction false} PiecesFree(s: string, sep: char)
    ensures forall k :: 0 <= k < |Pieces(s, sep)| ==> sep !in Pieces(s, sep)[k]
  {
    if s != [] {
      PiecesFree(s[1..], sep);
    }
  }

  /** Round trip: joining the pieces gives back the string. */
  lemma {:induction false} JoinPieces(s: string, sep: char)
    ensures Join(Pieces(s, sep), sep) == s
  {
    if s != [] {
      JoinPieces(s[1..], sep);
      var rest := Pieces(s[1..], sep);
      if s[0] == sep {
        assert Join([[]] + rest, sep) == [] + [sep] + Join(rest, sep);
      } else {
        var r := [[s[0]] + rest[0]] + rest[1..];
        if |rest| == 1 {
          assert Join(r, sep) == [s[0]] + rest[0];
        } else {
          assert r[1..] == rest[1..];
          assert Join(r, sep) == [s[0]] + rest[0] + [sep] + Join(rest[1..], sep);
          assert Join(rest, sep) == rest[0] + [sep] + Join(rest[1..], sep);
        }
      }
      assert s == [s[0]] + s[1..];
    }
  }

  /** A string without the separator is a single piece. */
  lemma {:induction false} PiecesOfPlain(a: string, sep: char)
    requires sep !in a
    ensures Pieces(a, sep) == [a]
  {
    if a != [] {
      PiecesOfPlain(a[1..], sep);
      assert [a[0]] + a[1..] == a;
    }
  }

  /** Splitting `a` followed by a separator yields `a` as the first piece. */
  lemma {:induction false} PiecesOfPrefix(a: string, b: string, sep: char)
    requires sep !in a
    ensures Pieces(a + [sep] + b, sep) == [a] + Pieces(b, sep)
  {
    if a == [] {
      assert a + [sep] + b == [sep] + b;
      assert ([sep] + b)[1..] == b;
    } else {
      PiecesOfPrefix(a[1..], b, sep);
      var s := a + [sep] + b;
      assert s[0] == a[0] && s[1..] == a[1..] + [sep] + b;
      assert [a[0]] + a[1..] == a;
    }
  }

  /** Round trip: pieces free of the separator are recovered by splitting their join. */
  lemma {:induction false} PiecesOfJoin(pieces: seq<string>, sep: char)
    requires |pieces| >= 1
    requires forall k :: 0 <= k < |pieces| ==> sep !in pieces[k]
    ensures Pieces(Join(pieces, sep), sep) == pieces
    decreases |pieces|
  {
    if |pieces| == 1 {
      PiecesOfPlain(pieces[0], sep);
    } else {
      PiecesOfJoin(pieces[1..], sep);
      PiecesOfPrefix(pieces[0], Join(pieces[1..], sep), sep);
      assert [pieces[0]] + pieces[1..] == pieces;
    }
  }

  /** `split` returns a prefix of the pieces; every piece it drops is empty. */
  lemma SplitIsPrefix(s: string, sep: char)
    ensures |Split(s, sep)| <= |Pieces(s, sep)|
    ensures Split(s, sep) == Pieces(s, sep)[..|Split(s, sep)|]
    ensures forall i :: |Split(s, sep)| <= i < |Pieces(s, sep)| ==> Pieces(s, sep)[i] == []
  {
    if sep !in s {
      PiecesOfPlain(s, sep);
    }
  }

  /** A non-empty piece survives `split` at its own position. */
  lemma SplitKeepsNonEmpty(s: string, sep: char, i: nat)
    requires i < |Pieces(s, sep)| && Pieces(s, sep)[i] != []
    ensures i < |Split(s, sep)| && Split(s, sep)[i] == Pieces(s, sep)[i]
  {
    SplitIsPrefix(s, sep);
  }

  /** Round trip through `split`: separator-free fields come back unchanged
      from splitting their join, provided a last field that `split` would
      drop is not empty (a single field always comes back whole). */
  lemma SplitOfJoin(fields: seq<string>, sep: char)
    requires |fields| >= 1 && (|fields| == 1 || fields[|fields| - 1] != [])
    requires forall k :: 0 <= k < |fields| ==> sep !in fields[k]
    ensures Split(Join(fields, sep), sep) == fields
  {
    if |fields| == 1 {
      assert Join(fields, sep) == fields[0];
    } else {
      PiecesOfJoin(fields, sep);
      var line := Join(fields, sep);
      assert line == fields[0] + [sep] + Join(fields[1..], sep);
      assert line[|fields[0]|] == sep;
    }
  }
}
