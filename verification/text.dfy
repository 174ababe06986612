/**
 String helpers with Python's semantics: `str.split(sep)` with an explicit
 separator, `sep.join(pieces)` and ASCII `str.lower()`.
 */
module Text {

  /** Number of occurrences of `c` in `s`. */
  function Count(s: string, c: char): nat
  {
    if |s| == 0 then 0 else (if s[0] == c then 1 else 0) + Count(s[1..], c)
  }

  /**
   Python's `s.split(sep)`: the maximal separator-free pieces, including
   empty ones, so that "" gives [""] and "a," gives ["a", ""].
   */
  function Split(s: string, sep: char): (pieces: seq<string>)
    ensures |pieces| == Count(s, sep) + 1
    ensures forall i :: 0 <= i < |pieces| ==> sep !in pieces[i]
    decreases |s|
  {
    if |s| == 0 then [""]
    else
      var rest := Split(s[1..], sep);
      if s[0] == sep then [""] + rest
      else [[s[0]] + rest[0]] + rest[1..]
  }

  /** Python's `sep.join(pieces)`. */
  function Join(pieces: seq<string>, sep: char): string
  {
    if |pieces| == 0 then ""
    else if |pieces| == 1 then pieces[0]
    else pieces[0] + [sep] + Join(pieces[1..], sep)
  }

  /** Joining the pieces of a split gives back the original string. */
  lemma {:induction false} JoinSplit(s: string, sep: char)
    ensures Join(Split(s, sep), sep) == s
    decreases |s|
  {
    if |s| > 0 {
      var rest := Split(s[1..], sep);
      JoinSplit(s[1..], sep);
      if s[0] == sep {
        assert Split(s, sep) == [""] + rest;
        assert ([""] + rest)[1..] == rest;
      } else {
        JoinConsHead(s[0], rest, sep);
      }
      assert [s[0]] + s[1..] == s;
    }
  }

  /** Prefixing the first piece with a character prefixes the joined string with it. */
  lemma JoinConsHead(x: char, pieces: seq<string>, sep: char)
    requires |pieces| >= 1
    ensures Join([[x] + pieces[0]] + pieces[1..], sep) == [x] + Join(pieces, sep)
  {
    var ps := [[x] + pieces[0]] + pieces[1..];
    assert ps[1..] == pieces[1..];
    if |pieces| > 1 {
      assert Join(ps, sep) == ([x] + pieces[0]) + [sep] + Join(pieces[1..], sep);
    }
  }

  /** A separator-free prefix fuses with the first piece of what follows it. */
  lemma {:induction false} SplitFreePrefix(u: string, t: string, sep: char)
    requires sep !in u
    ensures Split(u + t, sep) == [u + Split(t, sep)[0]] + Split(t, sep)[1..]
    decreases |u|
  {
    if |u| > 0 {
      assert (u + t)[1..] == u[1..] + t;
      assert u[0] != sep;
      SplitFreePrefix(u[1..], t, sep);
      assert [u[0]] + (u[1..] + Split(t, sep)[0]) == u + Split(t, sep)[0];
    } else {
      var ps := Split(t, sep);
      assert u + t == t;
      assert ps == [ps[0]] + ps[1..];
      assert u + ps[0] == ps[0];
    }
  }

  /**
   Splitting undoes joining when there is at least one piece and no piece
   contains the separator.
   */
  lemma {:induction false} SplitJoin(pieces: seq<string>, sep: char)
    requires |pieces| >= 1
    requires forall i :: 0 <= i < |pieces| ==> sep !in pieces[i]
    ensures Split(Join(pieces, sep), sep) == pieces
    decreases |pieces|
  {
    if |pieces| == 1 {
      SplitFreePrefix(pieces[0], "", sep);
      assert pieces[0] + "" == pieces[0];
    } else {
      var t := [sep] + Join(pieces[1..], sep);
      assert Join(pieces, sep) == pieces[0] + t;
      SplitFreePrefix(pieces[0], t, sep);
      SplitJoin(pieces[1..], sep);
      assert t[1..] == Join(pieces[1..], sep);
      assert Split(t, sep) == [""] + pieces[1..];
      assert pieces[0] + "" == pieces[0];
      assert [pieces[0]] + pieces[1..] == pieces;
    }
  }

  /** A string splits into a single piece exactly when it has no separator. */
  lemma SplitSingle(s: string, sep: char)
    requires sep !in s
    ensures Split(s, sep) == [s]
  {
    SplitFreePrefix(s, "", sep);
    assert s + "" == s;
  }

  lemma {:induction false} CountAppend(s: string, t: string, c: char)
    ensures Count(s + t, c) == Count(s, c) + Count(t, c)
    decreases |s|
  {
    if |s| == 0 {
      assert s + t == t;
    } else {
      assert (s + t)[1..] == s[1..] + t;
      CountAppend(s[1..], t, c);
    }
  }

  /** Whatever precedes a trailing separator, the last piece is empty. */
  lemma {:induction false} LastPieceAfterTrailingSeparator(s: string, sep: char)
    ensures var ps := Split(s + [sep], sep); ps[|ps| - 1] == ""
    decreases |s|
  {
    if |s| == 0 {
      assert s + [sep] == [sep];
      assert Split([sep], sep) == [""] + Split([], sep);
    } else {
      assert (s + [sep])[1..] == s[1..] + [sep];
      LastPieceAfterTrailingSeparator(s[1..], sep);
    }
  }

  /** ASCII part of Python's `str.lower()`. */
  function LowerChar(c: char): char
  {
    if 'A' <= c <= 'Z' then (c as int + 32) as char else c
  }

  function Lower(s: string): string
  {
    if |s| == 0 then "" else [LowerChar(s[0])] + Lower(s[1..])
  }
}
