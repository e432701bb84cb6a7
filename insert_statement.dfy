/**
 * The text of one bulk INSERT statement into the staging table, as the read loop
 * builds it: a fixed head naming the columns, then one parenthesised tuple per
 * row separated by commas. The database's reading of such a statement is
 * modelled by a reader, and every statement of well-formed rows reads back as
 * exactly its rows, while a statement with no tuple is malformed.
 */
module InsertStatement {
  import opened RowDecoder

  /** `names` joined by commas. */
  function Implode(names: seq<string>): (s: string)
  {
    if names == [] then []
    else if |names| == 1 then names[0]
    else names[0] + "," + Implode(names[1..])
  }

  /** The text every INSERT statement into the staging table starts with. */
  function InsertHead(): string
  {
    "INSERT INTO pmc_db_tmp (" + Implode(Fields) + ",created_at) VALUES"
  }

  lemma {:induction false} ImplodeSnoc(names: seq<string>, n: string)
    requires names != []
    ensures Implode(names + [n]) == Implode(names) + "," + n
  {
    if |names| == 1 {
      assert (names + [n])[1..] == [n];
    } else {
      assert (names + [n])[1..] == names[1..] + [n];
      ImplodeSnoc(names[1..], n);
    }
  }

  /** Regroups the end of the INSERT head: the comma before `created_at` joins the column list. */
  lemma CreatedAtSuffix(pre: string, x: string)
    ensures pre + x + ",created_at) VALUES" == pre + (x + "," + "created_at") + ") VALUES"
  {
    assert ",created_at) VALUES" == "," + "created_at" + ") VALUES";
  }

  /** The INSERT head names the staging table and lists its columns in order: the mapped fields,
      then `created_at`, matching the order of the values in each tuple. */
  lemma InsertHeadColumns()
    ensures InsertHead() == "INSERT INTO pmc_db_tmp (" + Implode(Columns) + ") VALUES"
  {
    ImplodeSnoc(Fields, "created_at");
    CreatedAtSuffix("INSERT INTO pmc_db_tmp (", Implode(Fields));
  }

  /** The VALUES list of a batch: one parenthesised tuple per row, separated by commas. */
  function ValuesText(rows: seq<Row>): (t: string)
    ensures t == [] <==> rows == []
    ensures rows != [] ==> t[|t| - 1] == ')'
  {
    if rows == [] then []
    else if |rows| == 1 then "(" + TupleText(rows[0]) + ")"
    else "(" + TupleText(rows[0]) + ")," + ValuesText(rows[1..])
  }

  /** The statement that inserts `rows` after the INSERT head `head`; for no row it is the bare head. */
  function StatementText(head: string, rows: seq<Row>): (t: string)
    ensures |t| >= |head| && t[..|head|] == head
    ensures t == head <==> rows == []
  {
    head + ValuesText(rows)
  }

  /** The statement of an empty batch is the bare head. */
  lemma EmptyStatement(head: string)
    ensures StatementText(head, []) == head
  {
  }

  /** Rows the database can read back from their text: each has a value, none holds a single quote. */
  predicate WellFormed(rows: seq<Row>) {
    forall r | r in rows :: r != [] && forall v | v in r :: '\'' !in v
  }

  /** Regroups a tuple followed by a comma and more text: the tuple, then the comma and the text. */
  lemma TupleThenRest(a: string, b: string, c: string)
    ensures "(" + b + ")," + c == "(" + b + ")" + ("," + c)
    ensures a + "(" + b + ")," + c == a + "(" + b + ")" + ("," + c)
    ensures ("," + c)[1..] == c
  {
  }

  /** Regroups the concatenations that appending a tuple `z` to a VALUES list produces. */
  lemma AppendTupleRegroup(h: string, x: string, y: string, z: string)
    ensures "(" + x + ")," + (y + "," + "(" + z + ")") == "(" + x + ")," + y + "," + "(" + z + ")"
    ensures "(" + x + ")," + "(" + z + ")" == "(" + x + ")" + "," + "(" + z + ")"
    ensures h + ("(" + z + ")") == h + [] + "(" + z + ")"
    ensures h + (y + "," + "(" + z + ")") == h + y + "," + "(" + z + ")"
  {
  }

  lemma ValuesTextPair(r0: Row, r: Row)
    ensures ValuesText([r0, r]) == "(" + TupleText(r0) + ")" + "," + "(" + TupleText(r) + ")"
  {
    assert [r0, r][1..] == [r];
    AppendTupleRegroup("", TupleText(r0), "", TupleText(r));
  }

  lemma ValuesTextSnocStep(rows: seq<Row>, r: Row)
    requires |rows| > 1
    requires ValuesText(rows[1..] + [r]) == ValuesText(rows[1..]) + "," + "(" + TupleText(r) + ")"
    ensures ValuesText(rows + [r]) == ValuesText(rows) + "," + "(" + TupleText(r) + ")"
  {
    assert (rows + [r])[0] == rows[0] && (rows + [r])[1..] == rows[1..] + [r];
    AppendTupleRegroup("", TupleText(rows[0]), ValuesText(rows[1..]), TupleText(r));
  }

  lemma {:induction false} ValuesTextSnoc(rows: seq<Row>, r: Row)
    ensures ValuesText(rows + [r]) ==
              if rows == [] then "(" + TupleText(r) + ")"
              else ValuesText(rows) + "," + "(" + TupleText(r) + ")"
  {
    if |rows| == 1 {
      assert rows + [r] == [rows[0], r];
      ValuesTextPair(rows[0], r);
    } else if |rows| > 1 {
      ValuesTextSnoc(rows[1..], r);
      ValuesTextSnocStep(rows, r);
    }
  }

  /** Appending a row to a batch appends its tuple to the statement text, after a comma unless it
      is the first tuple. */
  lemma StatementSnoc(head: string, rows: seq<Row>, r: Row)
    ensures rows == [] ==> StatementText(head, rows + [r]) == StatementText(head, rows) + "(" + TupleText(r) + ")"
    ensures rows != [] ==> StatementText(head, rows + [r]) == StatementText(head, rows) + "," + "(" + TupleText(r) + ")"
  {
    ValuesTextSnoc(rows, r);
    if rows == [] {
      AppendTupleRegroup(head, "", "", TupleText(r));
    } else {
      AppendTupleRegroup(head, "", ValuesText(rows), TupleText(r));
    }
  }

  /** Reads one parenthesised tuple; returns its values and the text after the closing parenthesis. */
  function ReadRow(t: string): (r: Option<(Row, string)>)
    ensures r.Some? ==> r.value.0 != [] && |r.value.1| < |t|
  {
    if t == [] || t[0] != '(' then None
    else
      match ReadItems(t[1..])
      case None => None
      case Some((vs, rest)) => if rest != [] && rest[0] == ')' then Some((vs, rest[1..])) else None
  }

  /** Reads a non-empty comma-separated list of tuples that makes up the whole text. */
  function ReadValues(t: string): (r: Option<seq<Row>>)
    ensures r.Some? ==> r.value != []
    decreases |t|
  {
    match ReadRow(t)
    case None => None
    case Some((row, rest)) =>
      if rest == [] then Some([row])
      else if rest[0] != ',' then None
      else
        match ReadValues(rest[1..])
        case None => None
        case Some(rows) => Some([row] + rows)
  }

  /** How the database reads a statement sent to it, with or without a final semicolon, when its
      INSERT statements into the staging table start with `head`: the rows it inserts, or None
      when the statement is malformed (in particular, when it has no tuple). */
  function ReadStatement(head: string, s: string): (r: Option<seq<Row>>)
    ensures r.Some? ==> r.value != []
  {
    var body := if s != [] && s[|s| - 1] == ';' then s[..|s| - 1] else s;
    if |head| <= |body| && body[..|head|] == head then ReadValues(body[|head|..]) else None
  }

  /** The rows a statement carries into the table: none when it is malformed. */
  function Carried(head: string, s: string): (rows: seq<Row>)
    ensures ReadStatement(head, s).Some? ==> rows == ReadStatement(head, s).value
    ensures ReadStatement(head, s).None? ==> rows == []
  {
    match ReadStatement(head, s)
    case Some(rows) => rows
    case None => []
  }

  /** Dropping the opening parenthesis of a tuple leaves its text, then the rest. */
  lemma DropOpenParen(r: Row, after: string)
    ensures ("(" + TupleText(r) + ")" + after)[1..] == TupleText(r) + (")" + after)
    ensures (")" + after)[1..] == after
  {
  }

  /** Round trip for one tuple: it reads back as its row, and reading resumes right after it. */
  lemma RowTextReadsBack(r: Row, after: string)
    requires r != [] && forall v | v in r :: '\'' !in v
    ensures ReadRow("(" + TupleText(r) + ")" + after) == Some((r, after))
  {
    DropOpenParen(r, after);
    TupleTextReadsBack(r, ")" + after);
  }

  lemma ValuesConsReads(r: Row, rows: seq<Row>)
    requires r != [] && forall v | v in r :: '\'' !in v
    requires rows != [] && ReadValues(ValuesText(rows)) == Some(rows)
    ensures ReadValues(ValuesText([r] + rows)) == Some([r] + rows)
  {
    assert ([r] + rows)[0] == r && ([r] + rows)[1..] == rows;
    var v := ValuesText(rows);
    TupleThenRest("", TupleText(r), v);
    RowTextReadsBack(r, "," + v);
  }

  /** Round trip for a VALUES list: a non-empty batch of well-formed rows reads back exactly, in order. */
  lemma {:induction false} ValuesTextReadsBack(rows: seq<Row>)
    requires rows != [] && WellFormed(rows)
    ensures ReadValues(ValuesText(rows)) == Some(rows)
  {
    assert rows[0] in rows;
    if |rows| == 1 {
      RowTextReadsBack(rows[0], "");
      assert "(" + TupleText(rows[0]) + ")" + "" == ValuesText(rows);
      assert rows == [rows[0]];
    } else {
      assert forall r | r in rows[1..] :: r in rows;
      ValuesTextReadsBack(rows[1..]);
      ValuesConsReads(rows[0], rows[1..]);
      assert [rows[0]] + rows[1..] == rows;
    }
  }

  /** Slicing a statement: without its optional semicolon it is the head then the VALUES list. */
  lemma HeadValuesSlices(head: string, v: string, terminated: bool)
    requires v != [] && v[|v| - 1] != ';'
    ensures var s := head + v + (if terminated then ";" else "");
            (if s != [] && s[|s| - 1] == ';' then s[..|s| - 1] else s) == head + v
    ensures (head + v)[..|head|] == head
    ensures (head + v)[|head|..] == v
  {
    var s := head + v + (if terminated then ";" else "");
    if !terminated {
      assert s == head + v;
    }
  }

  /** The bare head, with or without a semicolon, carries no tuple. */
  lemma BareHeadMalformed(head: string, terminated: bool)
    ensures ReadStatement(head, head + (if terminated then ";" else "")) == None
  {
    var s := head + (if terminated then ";" else "");
    var body := if s != [] && s[|s| - 1] == ';' then s[..|s| - 1] else s;
    if terminated {
      assert body == head;
      assert body[|head|..] == [];
    } else if |head| <= |body| {
      assert body == head;
      assert body[|head|..] == [];
    }
  }

  /** Round trip for a whole statement, with or without the final semicolon: a batch of
      well-formed rows reads back as exactly those rows, and the bare head of an empty batch is
      malformed. */
  lemma StatementReadsBack(head: string, rows: seq<Row>, terminated: bool)
    requires WellFormed(rows)
    ensures ReadStatement(head, StatementText(head, rows) + (if terminated then ";" else "")) ==
              if rows == [] then None else Some(rows)
  {
    if rows == [] {
      EmptyStatement(head);
      BareHeadMalformed(head, terminated);
    } else {
      HeadValuesSlices(head, ValuesText(rows), terminated);
      ValuesTextReadsBack(rows);
    }
  }

  /** What the database takes from the statement of a batch of well-formed rows, sent with or
      without the final semicolon: exactly the batch, and a malformed statement exactly when the
      batch is empty. */
  lemma CarriedRows(head: string, rows: seq<Row>, terminated: bool)
    requires WellFormed(rows)
    ensures Carried(head, StatementText(head, rows) + (if terminated then ";" else "")) == rows
    ensures ReadStatement(head, StatementText(head, rows) + (if terminated then ";" else "")).Some? <==> rows != []
  {
    StatementReadsBack(head, rows, terminated);
  }

  lemma WellFormedSnoc(rows: seq<Row>, r: Row)
    requires WellFormed(rows)
    requires r != [] && forall v | v in r :: '\'' !in v
    ensures WellFormed(rows + [r])
  {
  }
}
