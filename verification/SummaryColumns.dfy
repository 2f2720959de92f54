/** The choice of columns of the call summary (src/count.c:478-537). */
module SummaryColumns {
  import opened Common

  // enum count_summary_columns: 0 is CSC_NONE.
  const CSC_SC_NAME: nat := 8
  const CSC_TIME_WALL_TOTAL: nat := 9
  const CSC_TIME_WALL_MIN: nat := 10
  const CSC_TIME_WALL_MAX: nat := 11
  const CSC_TIME_WALL_AVG: nat := 12
  const CSC_MAX: nat := 13

  // An entry of column_aliases.
  datatype Alias = Alias(name: string, column: nat)

  predicate IsWall(column: nat) {
    CSC_TIME_WALL_TOTAL <= column <= CSC_TIME_WALL_AVG
  }

  lemma WallColumns(column: nat)
    ensures IsWall(column) <==>
            column in {CSC_TIME_WALL_TOTAL, CSC_TIME_WALL_MIN, CSC_TIME_WALL_MAX, CSC_TIME_WALL_AVG}
  {
  }

  // The pieces between commas, empty ones included.
  function Pieces(s: string): (r: seq<string>)
    ensures r != []
  {
    var n := FirstOf(s, ',');
    if n == |s| then [s] else [s[..n]] + Pieces(s[n + 1..])
  }

  function Join(pieces: seq<string>): string
    requires pieces != []
  {
    if |pieces| == 1 then pieces[0] else pieces[0] + "," + Join(pieces[1..])
  }

  // Joining undoes splitting, and splitting undoes joining: the pieces are what is between commas.
  lemma {:induction false} JoinOfPieces(s: string)
    ensures Join(Pieces(s)) == s
    ensures forall i :: 0 <= i < |Pieces(s)| ==> ',' !in Pieces(s)[i]
  {
    hide FirstOf;
    var n := FirstOf(s, ',');
    if n < |s| {
      JoinOfPieces(s[n + 1..]);
      var rest := Pieces(s[n + 1..]);
      assert Pieces(s) == [s[..n]] + rest && ([s[..n]] + rest)[1..] == rest;
      assert s == s[..n] + "," + s[n + 1..];
    }
  }

  lemma {:induction false} PiecesOfJoin(pieces: seq<string>)
    requires pieces != [] && forall i :: 0 <= i < |pieces| ==> ',' !in pieces[i]
    ensures Pieces(Join(pieces)) == pieces
  {
    hide FirstOf;
    var s := Join(pieces);
    if |pieces| == 1 {
      FirstAfter(pieces[0], "", ',');
      assert pieces[0] + "" == pieces[0];
    } else {
      PiecesOfJoin(pieces[1..]);
      var rest := "," + Join(pieces[1..]);
      FirstAfter(pieces[0], rest, ',');
      assert s == pieces[0] + rest;
      assert s[..|pieces[0]|] == pieces[0] && s[|pieces[0]| + 1..] == Join(pieces[1..]);
    }
  }

  predicate Fits(a: Alias, name: string) {
    a.name == name && 0 < a.column < CSC_MAX
  }

  // The column a name stands for.
  ghost predicate StandsFor(aliases: seq<Alias>, name: string, column: nat) {
    exists i :: 0 <= i < |aliases| && Fits(aliases[i], name) && aliases[i].column == column
                && forall j :: 0 <= j < i ==> !Fits(aliases[j], name)
  }

  ghost predicate Known(aliases: seq<Alias>, name: string) {
    exists i :: 0 <= i < |aliases| && Fits(aliases[i], name)
  }

  // The columns that names stand for, in order.
  ghost predicate Chosen(aliases: seq<Alias>, names: seq<string>, columns: seq<nat>) {
    |columns| == |names| && forall i :: 0 <= i < |names| ==> StandsFor(aliases, names[i], columns[i])
  }

  lemma StandsForOne(aliases: seq<Alias>, name: string, c: nat, d: nat)
    requires StandsFor(aliases, name, c) && StandsFor(aliases, name, d)
    ensures c == d && 0 < c < CSC_MAX && Known(aliases, name)
  {
    var i :| 0 <= i < |aliases| && Fits(aliases[i], name) && aliases[i].column == c
             && forall j :: 0 <= j < i ==> !Fits(aliases[j], name);
    var k :| 0 <= k < |aliases| && Fits(aliases[k], name) && aliases[k].column == d
             && forall j :: 0 <= j < k ==> !Fits(aliases[j], name);
  }

  // Names stand for the same columns every time, and an initial part of them for an initial part.
  lemma ChosenUnique(aliases: seq<Alias>, names: seq<string>, n: nat, columns: seq<nat>, all: seq<nat>)
    requires n <= |names| && Chosen(aliases, names[..n], columns) && Chosen(aliases, names, all)
    ensures columns == all[..n]
  {
    forall i | 0 <= i < n
      ensures columns[i] == all[i]
    {
      assert StandsFor(aliases, names[..n][i], columns[i]) && StandsFor(aliases, names[i], all[i]);
      StandsForOne(aliases, names[i], columns[i], all[i]);
    }
  }

  // There are no more distinct columns than there is room for, less one for the end.
  lemma {:induction false} Pigeonhole(s: seq<nat>, n: nat)
    requires Distinct(s) && forall i :: 0 <= i < |s| ==> 0 < s[i] < n
    ensures |s| < n || s == []
  {
    if |s| > 0 {
      assert 0 < s[0] < n;
      if k :| 0 <= k < |s| && s[k] == n - 1 {
        var t := s[..k] + s[k + 1..];
        assert forall i :: 0 <= i < |t| ==> t[i] == if i < k then s[i] else s[i + 1];
        Pigeonhole(t, n - 1);
      } else {
        Pigeonhole(s, n - 1);
      }
    }
  }

  // The inner loop: the first alias that fits.
  method Resolve(aliases: seq<Alias>, name: string) returns (column: nat)
    ensures column == 0 <==> !Known(aliases, name)
    ensures column != 0 ==> StandsFor(aliases, name, column) && column < CSC_MAX
  {
    for i := 0 to |aliases|
      invariant forall j :: 0 <= j < i ==> !Fits(aliases[j], name)
    {
      if aliases[i].name != name || aliases[i].column == 0 || aliases[i].column >= CSC_MAX {
        continue;
      }
      return aliases[i].column;
    }
    column := 0;
  }

  // When a list of names is accepted: all are known, and no two stand for the same column.
  ghost predicate Accepted(aliases: seq<Alias>, names: seq<string>) {
    exists all :: Chosen(aliases, names, all) && Distinct(all)
  }

  lemma AcceptedKnown(aliases: seq<Alias>, names: seq<string>, i: nat)
    requires i < |names|
    ensures Accepted(aliases, names) ==> Known(aliases, names[i])
  {
    if Accepted(aliases, names) {
      var all :| Chosen(aliases, names, all) && Distinct(all);
      assert StandsFor(aliases, names[i], all[i]);
    }
  }

  lemma AcceptedOnce(aliases: seq<Alias>, names: seq<string>, i: nat, columns: seq<nat>, column: nat)
    requires i < |names| && Chosen(aliases, names[..i], columns) && StandsFor(aliases, names[i], column)
    ensures Accepted(aliases, names) ==> column !in columns
  {
    if Accepted(aliases, names) {
      var all :| Chosen(aliases, names, all) && Distinct(all);
      ChosenUnique(aliases, names, i, columns, all);
      StandsForOne(aliases, names[i], column, all[i]);
    }
  }

  // `visible` marks the columns chosen so far.
  ghost predicate Marks(visible: seq<bool>, columns: seq<nat>) {
    && |visible| == CSC_MAX
    && Distinct(columns)
    && (forall i :: 0 <= i < |columns| ==> 0 < columns[i] < CSC_MAX)
    && (forall c :: 0 <= c < CSC_MAX ==> (visible[c] <==> c in columns))
  }

  lemma MarksNext(visible: seq<bool>, columns: seq<nat>, c: nat)
    requires Marks(visible, columns) && 0 < c < CSC_MAX && !visible[c]
    ensures Marks(visible[c := true], columns + [c]) && |columns| + 1 < CSC_MAX
  {
    Pigeonhole(columns + [c], CSC_MAX);
  }

  // set_count_summary_columns; a false result stands for dying with a message.
  method SetCountSummaryColumns(aliases: seq<Alias>, s: string, columns: array<nat>)
    returns (ok: bool, wall: bool, ghost all: seq<nat>)
    requires columns.Length == CSC_MAX
    modifies columns
    ensures ok <==> Accepted(aliases, Pieces(s))
    ensures ok ==> Chosen(aliases, Pieces(s), all) && Distinct(all)
    ensures ok ==> var shown := if CSC_SC_NAME in all then all else all + [CSC_SC_NAME];
                   && |shown| < CSC_MAX
                   && columns[..] == shown + seq(CSC_MAX - |shown|, _ => 0)
                   && (wall <==> exists c :: c in shown && IsWall(c))
  {
    hide StandsFor, Known, IsWall, Pieces;
    var names := Pieces(s);
    forall i | 0 <= i < CSC_MAX {
      columns[i] := 0;
    }
    var visible := seq(CSC_MAX, _ => false);
    all, wall := [], false;
    var cur := 0;
    for i := 0 to |names|
      invariant Marks(visible, all) && cur == |all| < CSC_MAX && columns[..cur] == all
      invariant forall j :: cur <= j < CSC_MAX ==> columns[j] == 0
      invariant Chosen(aliases, names[..i], all)
    {
      var column := Resolve(aliases, names[i]);
      if column == 0 {
        AcceptedKnown(aliases, names, i);
        return false, false, all;
      }
      if visible[column] {
        AcceptedOnce(aliases, names, i, all, column);
        return false, false, all;
      }
      MarksNext(visible, all, column);
      columns[cur] := column;
      cur := cur + 1;
      visible := visible[column := true];
      all := all + [column];
    }
    assert names[..|names|] == names;
    if !visible[CSC_SC_NAME] {
      MarksNext(visible, all, CSC_SC_NAME);
      columns[cur] := CSC_SC_NAME;
      cur := cur + 1;
    }
    assert Accepted(aliases, names);
    wall := HasWall(columns, cur);
    ok := true;
  }

  // The last loop: it ends at the first column that is zero.
  method HasWall(columns: array<nat>, ghost cur: nat) returns (wall: bool)
    requires cur < columns.Length == CSC_MAX && columns[cur] == 0
    requires forall i :: 0 <= i < cur ==> columns[i] != 0
    ensures wall <==> exists c :: c in columns[..cur] && IsWall(c)
  {
    var i := 0;
    while i < columns.Length && columns[i] != 0
      invariant i <= cur && forall j :: 0 <= j < i ==> !IsWall(columns[j])
    {
      if IsWall(columns[i]) {
        assert columns[i] in columns[..cur];
        return true;
      }
      i := i + 1;
    }
    wall := false;
  }
}
