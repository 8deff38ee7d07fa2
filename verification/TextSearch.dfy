/** Text lists and text searches in WHERE clauses, and what they find. */
module TextSearch {
  import opened Sql
  import Like

  function Texts(ss: seq<string>): seq<Value> {
    seq(|ss|, i requires 0 <= i < |ss| => VStr(ss[i]))
  }

  predicate HoldsText(v: Value, ss: seq<string>) {
    v.VStr? && v.s in ss
  }

  /** The text is found in a cell that holds a text. */
  ghost predicate CellFinds(v: Value, text: string, folded: bool) {
    v.VStr? && if folded then Like.Finds(Like.Contains, Like.Lower(v.s), Like.Lower(text))
               else Like.Finds(Like.Contains, v.s, text)
  }

  /** Folding a pattern that was made from a folded text changes nothing. */
  lemma FoldedTwice(text: string)
    ensures Like.Lower(Like.Pattern(Like.Contains, Like.Lower(text))) == Like.Lower(Like.Pattern(Like.Contains, text))
  {
    Like.LowerPattern(Like.Contains, text);
    Like.LowerPattern(Like.Contains, Like.Lower(text));
  }

  lemma FoldedSearch(t: string, text: string, escapes: bool)
    ensures Like.MatchesFolded(t, Like.Pattern(Like.Contains, Like.Lower(text)), escapes) <==>
            Like.MatchesFolded(t, Like.Pattern(Like.Contains, text), escapes)
  {
    FoldedTwice(text);
  }

  lemma FoldedColumnSearch(db: Database, row: Row, col: Column, text: string)
    requires Like.Plain(Like.Contains, text, db.backslashEscapes)
    ensures Holds(LikePattern(col, true, Like.Pattern(Like.Contains, Like.Lower(text))), db, row)
            <==> CellFinds(Cell(row, col), text, true)
  {
    var v := Cell(row, col);
    LikeHolds(col, Like.Pattern(Like.Contains, Like.Lower(text)), db, row);
    if v.VStr? {
      FoldedSearch(v.s, text, db.backslashEscapes);
      Like.FoldedPlainFinds(Like.Contains, text, db.backslashEscapes, v.s);
    }
  }

  lemma ColumnSearch(db: Database, row: Row, col: Column, text: string)
    requires Like.Plain(Like.Contains, text, db.backslashEscapes)
    ensures Holds(LikePattern(col, false, Like.Pattern(Like.Contains, text)), db, row)
            <==> CellFinds(Cell(row, col), text, db.likeFolds)
  {
    var v := Cell(row, col);
    if v.VStr? {
      if db.likeFolds {
        Like.FoldedPlainFinds(Like.Contains, text, db.backslashEscapes, v.s);
      } else {
        Like.PlainPatternFinds(Like.Contains, text, db.backslashEscapes, v.s);
      }
    }
  }

  /** A text that is accepted by the pattern of a search with a metacharacter, although it does not hold the text. */
  lemma ColumnMisfire(text: string, escapes: bool, folds: bool) returns (t: string)
    requires !Like.Plain(Like.Contains, text, escapes)
    ensures Like3(VStr(t), folds, Like.Pattern(Like.Contains, text), escapes) == True
    ensures !CellFinds(VStr(t), text, folds)
  {
    if folds {
      t := Like.FoldedMisfire(Like.Contains, text, escapes);
    } else {
      t := Like.Misfire(Like.Contains, text, escapes);
    }
  }

  lemma InTexts(ss: seq<string>, db: Database, row: Row, col: Column)
    ensures Holds(InList(Col(col), Texts(ss)), db, row) <==> HoldsText(Cell(row, col), ss)
  {
    var v := Cell(row, col);
    if HoldsText(v, ss) {
      var i :| 0 <= i < |ss| && ss[i] == v.s;
      assert Texts(ss)[i] == v;
    }
  }
}
