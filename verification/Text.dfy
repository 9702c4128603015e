// Splitting and joining text at a separator, as the strings package does.
module Text {
  function Split(s: string, sep: char): (ps: seq<string>)
    ensures |ps| > 0
  {
    if s == "" then [""]
    else
      var front := Split(s[..|s| - 1], sep);
      if s[|s| - 1] == sep then front + [""]
      else front[..|front| - 1] + [front[|front| - 1] + [s[|s| - 1]]]
  }

  function Join(ps: seq<string>, sep: char): string {
    if ps == [] then ""
    else if |ps| == 1 then ps[0]
    else Join(ps[..|ps| - 1], sep) + [sep] + ps[|ps| - 1]
  }

  lemma {:induction false} SplitPiece(front: seq<string>, a: string, piece: string, sep: char)
    requires sep !in piece
    requires Split(a, sep) == front + [""]
    ensures Split(a + piece, sep) == front + [piece]
  {
    if piece == "" {
      assert a + piece == a;
    } else {
      var most, c := piece[..|piece| - 1], piece[|piece| - 1];
      assert piece == most + [c];
      SplitPiece(front, a, most, sep);
      assert a + piece == a + most + [c];
    }
  }

  // Splitting undoes joining when no piece has the separator in it.
  lemma {:induction false} SplitJoin(ps: seq<string>, sep: char)
    requires ps != []
    requires forall i :: 0 <= i < |ps| ==> sep !in ps[i]
    ensures Split(Join(ps, sep), sep) == ps
  {
    var front, last := ps[..|ps| - 1], ps[|ps| - 1];
    assert ps == front + [last];
    if |ps| == 1 {
      assert [] + [""] == [""];
      SplitPiece([], "", last, sep);
      assert "" + last == last;
    } else {
      SplitJoin(front, sep);
      var most, before := front[..|front| - 1], front[|front| - 1];
      assert front == most + [before];
      assert most + [before, ""] == front + [""];
      SplitPiece(front, Join(front, sep) + [sep], last, sep);
    }
  }
}
