/**
 * Java's `String.split(":")` over the bytes of a string. A colon byte only
 * occurs in UTF-8 as the colon character, so splitting the bytes splits the
 * characters.
 */
module JavaString {
  import opened Wire

  /** Every colon-separated piece, empty ones included: one more than the number of colons. */
  function Pieces(s: seq<byte>): (r: seq<seq<byte>>)
    ensures |r| >= 1
    decreases |s|
  {
    if |s| == 0 then [[]]
    else
      var rest := Pieces(s[1..]);
      if s[0] == COLON then [[]] + rest else [[s[0]] + rest[0]] + rest[1..]
  }

  /** The pieces glued back together with colons. */
  function Join(pieces: seq<seq<byte>>): seq<byte>
  {
    if |pieces| == 0 then []
    else if |pieces| == 1 then pieces[0]
    else pieces[0] + [COLON] + Join(pieces[1..])
  }

  predicate ColonFree(s: seq<byte>)
  {
    COLON !in s
  }

  /** The pieces without their trailing run of empty pieces. */
  function DropTrailingEmpty(pieces: seq<seq<byte>>): (r: seq<seq<byte>>)
    ensures r <= pieces
    ensures |r| == 0 || r[|r| - 1] != []
    ensures forall i | |r| <= i < |pieces| :: pieces[i] == []
  {
    if |pieces| > 0 && pieces[|pieces| - 1] == [] then DropTrailingEmpty(pieces[..|pieces| - 1])
    else pieces
  }

  /**
   * `split(":")`: a string without a colon is its own only piece, even when
   * empty; otherwise the trailing empty pieces are dropped.
   */
  function Split(s: seq<byte>): (r: seq<seq<byte>>)
    ensures COLON !in s ==> r == [s]
    ensures forall i | 0 <= i < |r| :: ColonFree(r[i])
  {
    PiecesAreColonFree(s);
    if COLON !in s then [s] else DropTrailingEmpty(Pieces(s))
  }

  lemma {:induction false} PiecesAreColonFree(s: seq<byte>)
    ensures forall i | 0 <= i < |Pieces(s)| :: ColonFree(Pieces(s)[i])
    decreases |s|
  {
    if |s| > 0 {
      PiecesAreColonFree(s[1..]);
    }
  }

  /** Splitting on every colon and joining the pieces again gives the string back. */
  lemma {:induction false} JoinPieces(s: seq<byte>)
    ensures Join(Pieces(s)) == s
    decreases |s|
  {
    if |s| > 0 {
      JoinPieces(s[1..]);
      var rest := Pieces(s[1..]);
      if s[0] != COLON {
        var p := Pieces(s);
        if |rest| == 1 {
          assert p == [[s[0]] + rest[0]];
        } else {
          assert p[1..] == rest[1..];
          assert Join(rest) == rest[0] + [COLON] + Join(rest[1..]);
        }
      } else {
        assert Pieces(s)[1..] == rest;
      }
      assert s == [s[0]] + s[1..];
    }
  }

  /** A colon-free prefix lengthens the first piece and leaves the others alone. */
  lemma {:induction false} PiecesOfPrefix(a: seq<byte>, t: seq<byte>)
    requires ColonFree(a)
    ensures Pieces(a + t) == [a + Pieces(t)[0]] + Pieces(t)[1..]
    decreases |a|
  {
    var p := Pieces(t);
    if |a| > 0 {
      assert (a + t)[0] == a[0] && (a + t)[1..] == a[1..] + t;
      PiecesOfPrefix(a[1..], t);
      assert [a[0]] + (a[1..] + p[0]) == a + p[0];
    } else {
      assert a + t == t && a + p[0] == p[0];
      assert [p[0]] + p[1..] == p;
    }
  }

  /** Joining colon-free pieces and splitting on every colon gives the pieces back. */
  lemma {:induction false} PiecesOfJoin(pieces: seq<seq<byte>>)
    requires |pieces| >= 1
    requires forall i | 0 <= i < |pieces| :: ColonFree(pieces[i])
    ensures Pieces(Join(pieces)) == pieces
  {
    if |pieces| == 1 {
      PiecesOfPrefix(pieces[0], []);
      assert pieces[0] + [] == pieces[0];
    } else {
      var tail := Join(pieces[1..]);
      PiecesOfJoin(pieces[1..]);
      assert pieces[0] + ([COLON] + tail) == Join(pieces);
      PiecesOfPrefix(pieces[0], [COLON] + tail);
      assert ([COLON] + tail)[1..] == tail;
      assert Pieces([COLON] + tail) == [[]] + pieces[1..];
      assert pieces[0] + [] == pieces[0];
      assert [pieces[0]] + pieces[1..] == pieces;
    }
  }
}
