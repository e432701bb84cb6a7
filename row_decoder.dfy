/**
 * The row decoder of the CSV importer: positional mapping of one CSV data row
 * onto the twelve staging columns, the character-stripping sanitizer applied to
 * text fields, and the quoted tuple text a row becomes inside a bulk INSERT.
 */
module RowDecoder {

  datatype Option<T> = None | Some(value: T)

  /** One row as stored in the staging and live tables: the twelve CSV columns
      followed by `created_at`, in column order (the `id` column is not part of it). */
  type Row = seq<string>

  /** The database columns the CSV columns are mapped onto, by position. */
  const Fields: seq<string> := [
    "provider_name", "verify", "application_device", "content_name",
    "contract_member_status", "payment_method", "application_date", "withdrawal_date",
    "shop_id", "agency_group_id", "staff_id", "dealer_id"]

  /** The columns of an inserted row: the mapped fields, then the run timestamp. */
  const Columns: seq<string> := Fields + ["created_at"]

  predicate IsDateField(name: string) {
    name == "application_date" || name == "withdrawal_date"
  }

  predicate IsDelimiter(c: char) {
    c == '\'' || c == ',' || c == '"'
  }

  /** No character the sanitizer deletes occurs in `s`. */
  predicate NoDelimiters(s: string) {
    '\'' !in s && ',' !in s && '"' !in s
  }

  /** `s` with every occurrence of `c` deleted. */
  function Strip(s: string, c: char): (r: string)
    ensures c !in r
    ensures forall x | x != c :: multiset(r)[x] == multiset(s)[x]
    ensures c !in s ==> r == s
  {
    if s == [] then []
    else
      assert s == [s[0]] + s[1..];
      (if s[0] == c then [] else [s[0]]) + Strip(s[1..], c)
  }

  /** Deleting a character works piecewise: the result keeps the order of what survives. */
  lemma {:induction false} StripAppend(a: string, b: string, c: char)
    ensures Strip(a + b, c) == Strip(a, c) + Strip(b, c)
  {
    if a != [] {
      assert (a + b)[0] == a[0] && (a + b)[1..] == a[1..] + b;
      StripAppend(a[1..], b, c);
      var h := if a[0] == c then [] else [a[0]];
      calc {
        Strip(a + b, c);
        h + Strip(a[1..] + b, c);
        h + (Strip(a[1..], c) + Strip(b, c));
        { assert h + (Strip(a[1..], c) + Strip(b, c)) == h + Strip(a[1..], c) + Strip(b, c); }
        h + Strip(a[1..], c) + Strip(b, c);
        Strip(a, c) + Strip(b, c);
      }
    } else {
      assert a + b == b;
    }
  }

  /** On one character, deletion keeps it exactly when it is not the deleted one. */
  lemma StripChar(x: char, c: char)
    ensures Strip([x], c) == if x == c then [] else [x]
  {
  }

  /** Text-field cleaning: double quotes, then commas, then single quotes are deleted. */
  function Sanitize(s: string): (r: string)
    ensures NoDelimiters(r)
    ensures NoDelimiters(s) ==> r == s
    ensures forall x | !IsDelimiter(x) :: multiset(r)[x] == multiset(s)[x]
  {
    var noDouble := Strip(s, '"');
    var noComma := Strip(noDouble, ',');
    assert multiset(noComma)['"'] == multiset(noDouble)['"'] == 0;
    var r := Strip(noComma, '\'');
    assert multiset(r)['"'] == 0 && multiset(r)[','] == multiset(noComma)[','] == 0;
    r
  }

  /** The sanitizer works piecewise, so the characters it keeps stay in their order. */
  lemma SanitizeAppend(a: string, b: string)
    ensures Sanitize(a + b) == Sanitize(a) + Sanitize(b)
  {
    StripAppend(a, b, '"');
    StripAppend(Strip(a, '"'), Strip(b, '"'), ',');
    StripAppend(Strip(Strip(a, '"'), ','), Strip(Strip(b, '"'), ','), '\'');
  }

  /** On one character, the sanitizer deletes it exactly when it is a delimiter. */
  lemma SanitizeChar(x: char)
    ensures Sanitize([x]) == if IsDelimiter(x) then [] else [x]
  {
    StripChar(x, '"');
    if x != '"' {
      StripChar(x, ',');
      if x != ',' {
        StripChar(x, '\'');
      }
    }
  }

  /** The raw value at position `j`; a column the row does not have reads as the empty string. */
  function Cell(data: seq<string>, j: nat): (v: string)
    ensures j < |data| ==> v == data[j]
    ensures j >= |data| ==> v == ""
  {
    if j < |data| then data[j] else ""
  }

  /** The value stored for field `j`: date fields go through the date formatter, all others through the sanitizer. */
  function FieldValue(data: seq<string>, j: nat, formatDate: string -> string): (v: string)
    requires j < |Fields|
    ensures IsDateField(Fields[j]) ==> v == formatDate(Cell(data, j))
    ensures !IsDateField(Fields[j]) ==> v == Sanitize(Cell(data, j)) && NoDelimiters(v)
    ensures !IsDateField(Fields[j]) && NoDelimiters(Cell(data, j)) ==> v == Cell(data, j)
  {
    if IsDateField(Fields[j]) then formatDate(Cell(data, j)) else Sanitize(Cell(data, j))
  }

  /** The values one CSV data row is encoded into, the run timestamp last. */
  function RowValues(data: seq<string>, now: string, formatDate: string -> string): (r: Row)
    ensures |r| == |Columns|
    ensures r[|Fields|] == now
  {
    seq(|Fields|, j requires 0 <= j < |Fields| => FieldValue(data, j, formatDate)) + [now]
  }

  /** An encoded row has one value per column, taken by position: a text field is the sanitized
      cell (empty when the row is short, unchanged when it holds no deleted character), a date
      field is the formatted cell, and the run timestamp comes last. */
  lemma RowValuesByPosition(data: seq<string>, now: string, formatDate: string -> string)
    ensures |RowValues(data, now, formatDate)| == |Columns|
    ensures RowValues(data, now, formatDate)[|Fields|] == now
    ensures forall j | 0 <= j < |Fields| && !IsDateField(Fields[j]) ::
              var v := RowValues(data, now, formatDate)[j];
              v == Sanitize(Cell(data, j)) && NoDelimiters(v) && (j >= |data| ==> v == "") &&
              (j < |data| && NoDelimiters(data[j]) ==> v == data[j])
    ensures forall j | 0 <= j < |Fields| && IsDateField(Fields[j]) ::
              RowValues(data, now, formatDate)[j] == formatDate(Cell(data, j))
  {
  }

  /** A value as an SQL string literal. */
  function Quote(v: string): (q: string)
    ensures |q| == |v| + 2
    ensures q[0] == '\'' && q[|q| - 1] == '\''
  {
    "'" + v + "'"
  }

  /** The literals of a row joined by commas, as they stand between the parentheses of a VALUES tuple. */
  function TupleText(vs: seq<string>): (t: string)
    ensures t == [] <==> vs == []
    ensures vs != [] ==> |t| >= 2 && t[0] == '\'' && t[|t| - 1] == '\''
  {
    if vs == [] then []
    else if |vs| == 1 then Quote(vs[0])
    else Quote(vs[0]) + "," + TupleText(vs[1..])
  }

  lemma {:induction false} TupleTextSnoc(vs: seq<string>, v: string)
    ensures TupleText(vs + [v]) == if vs == [] then Quote(v) else TupleText(vs) + "," + Quote(v)
  {
    if |vs| == 1 {
      assert (vs + [v])[1..] == [v];
    } else if |vs| > 1 {
      assert (vs + [v])[0] == vs[0] && (vs + [v])[1..] == vs[1..] + [v];
      TupleTextSnoc(vs[1..], v);
      var x, y := Quote(vs[0]) + ",", TupleText(vs[1..]);
      calc {
        TupleText(vs + [v]);
        x + TupleText(vs[1..] + [v]);
        x + (y + "," + Quote(v));
        { assert x + (y + "," + Quote(v)) == x + y + "," + Quote(v); }
        x + y + "," + Quote(v);
      }
    }
  }

  /** Position of the first single quote in `s`, or `|s|` when there is none. */
  function QuoteIndex(s: string): (p: nat)
    ensures p <= |s|
    ensures p < |s| ==> s[p] == '\''
    ensures forall i | 0 <= i < p :: s[i] != '\''
  {
    if s == [] || s[0] == '\'' then 0 else 1 + QuoteIndex(s[1..])
  }

  /** Reads a comma-separated list of single-quoted literals (no escapes), as the database reads
      the inside of a VALUES tuple; returns the values and the text after the last literal. */
  function ReadItems(t: string): (r: Option<(seq<string>, string)>)
    ensures r.Some? ==> r.value.0 != [] && forall v | v in r.value.0 :: '\'' !in v
    ensures r.Some? ==> |r.value.1| < |t|
    decreases |t|
  {
    if t == [] || t[0] != '\'' then None
    else
      var p := 1 + QuoteIndex(t[1..]);
      if p == |t| then None
      else
        var v := t[1..p];
        var rest := t[p + 1..];
        if rest != [] && rest[0] == ',' then
          match ReadItems(rest[1..])
          case None => None
          case Some((vs, after)) => Some(([v] + vs, after))
        else Some(([v], rest))
  }

  lemma QuoteIndexAfter(v: string, rest: string)
    requires '\'' !in v
    ensures QuoteIndex(v + "'" + rest) == |v|
  {
    var s := v + "'" + rest;
    var p := QuoteIndex(s);
    assert forall i | 0 <= i < |v| :: s[i] == v[i];
    assert s[|v|] == '\'';
  }

  /** Reading one quote-free literal: the reader goes on after a comma and stops otherwise. */
  lemma ReadItemsLiteral(v: string, rest: string)
    requires '\'' !in v
    ensures ReadItems("'" + v + "'" + rest) ==
              if rest != [] && rest[0] == ',' then
                match ReadItems(rest[1..])
                case None => None
                case Some((vs, after)) => Some(([v] + vs, after))
              else Some(([v], rest))
  {
    var t := "'" + v + "'" + rest;
    assert t[1..] == v + "'" + rest;
    QuoteIndexAfter(v, rest);
    assert t[1..1 + |v|] == v;
    assert t[|v| + 2..] == rest;
  }

  /** Regroups a literal followed by the rest of a tuple text: the literal, then a comma and the rest. */
  lemma LiteralThenRest(v: string, x: string, after: string)
    ensures Quote(v) + "," + x + after == "'" + v + "'" + ("," + x + after)
    ensures ("," + x + after)[1..] == x + after
  {
  }

  /** One more literal in front of a tuple text that reads back. */
  lemma TupleTextConsReads(v: string, vs: seq<string>, after: string)
    requires '\'' !in v && vs != []
    requires ReadItems(TupleText(vs) + after) == Some((vs, after))
    ensures ReadItems(TupleText([v] + vs) + after) == Some(([v] + vs, after))
  {
    assert ([v] + vs)[1..] == vs;
    assert TupleText([v] + vs) == Quote(v) + "," + TupleText(vs);
    LiteralThenRest(v, TupleText(vs), after);
    ReadItemsLiteral(v, "," + TupleText(vs) + after);
  }

  /** Round trip: quote-free values joined into tuple text are read back exactly, in order, and
      reading stops where the tuple text ends. */
  lemma {:induction false} TupleTextReadsBack(vs: seq<string>, after: string)
    requires vs != []
    requires forall v | v in vs :: '\'' !in v
    requires after == [] || after[0] != ','
    ensures ReadItems(TupleText(vs) + after) == Some((vs, after))
  {
    if |vs| > 1 {
      TupleTextReadsBack(vs[1..], after);
      TupleTextConsReads(vs[0], vs[1..], after);
      assert [vs[0]] + vs[1..] == vs;
    } else {
      assert TupleText(vs) + after == "'" + vs[0] + "'" + after;
      ReadItemsLiteral(vs[0], after);
      assert vs == [vs[0]];
    }
  }

  /** The run timestamp and every formatted date hold no single quote, as the outputs of the
      importer's `Y-m-d H:i:s` and `%Y-%m-%d %H:%M:%S` formats never do. */
  ghost predicate QuoteFreeClock(now: string, formatDate: string -> string) {
    '\'' !in now && forall s :: '\'' !in formatDate(s)
  }

  /** The values of an encoded row hold no single quote, provided the date formatter and the run
      timestamp produce none. */
  lemma RowValuesQuoteFree(data: seq<string>, now: string, formatDate: string -> string)
    requires QuoteFreeClock(now, formatDate)
    ensures RowValues(data, now, formatDate) != []
    ensures forall v | v in RowValues(data, now, formatDate) :: '\'' !in v
  {
    var r := RowValues(data, now, formatDate);
    RowValuesByPosition(data, now, formatDate);
    forall v | v in r
      ensures '\'' !in v
    {
      var j :| 0 <= j < |r| && r[j] == v;
      if j < |Fields| && IsDateField(Fields[j]) {
        assert v == formatDate(Cell(data, j));
      }
    }
  }

  /** The tuple text of the first `j + 1` values extends that of the first `j`. */
  lemma TupleTextPrefix(vs: seq<string>, j: nat)
    requires j < |vs|
    ensures TupleText(vs[..j + 1]) == if j == 0 then Quote(vs[j]) else TupleText(vs[..j]) + "," + Quote(vs[j])
  {
    assert vs[..j + 1] == vs[..j] + [vs[j]];
    TupleTextSnoc(vs[..j], vs[j]);
  }

  /** Appending the literal of field `j` to the text of the fields before it gives the text of
      the fields up to `j`. */
  lemma EncodeStep(data: seq<string>, now: string, formatDate: string -> string, j: nat, str: string)
    requires j < |Fields|
    requires str == TupleText(RowValues(data, now, formatDate)[..j])
    ensures str + (if str == "" then "" else ",") + Quote(FieldValue(data, j, formatDate))
            == TupleText(RowValues(data, now, formatDate)[..j + 1])
  {
    var values := RowValues(data, now, formatDate);
    TupleTextPrefix(values, j);
    assert values[j] == FieldValue(data, j, formatDate);
  }

  /** Builds the tuple text of one data row field by field, as the importer's inner loop does. */
  method EncodeRow(data: seq<string>, now: string, formatDate: string -> string) returns (str: string)
    ensures str == TupleText(RowValues(data, now, formatDate))
  {
    ghost var values := RowValues(data, now, formatDate);
    str := "";
    var j := 0;
    while j < |Fields|
      invariant 0 <= j <= |Fields|
      invariant str == TupleText(values[..j])
    {
      var row := if IsDateField(Fields[j]) then formatDate(Cell(data, j)) else Sanitize(Cell(data, j));
      EncodeStep(data, now, formatDate, j, str);
      str := str + (if str == "" then "" else ",") + Quote(row);
      j := j + 1;
    }
    assert values == values[..|Fields|] + [now];
    TupleTextSnoc(values[..|Fields|], now);
    str := str + "," + Quote(now);
  }

  /** The encoded values of the data rows of a CSV file, in file order; the first line is the
      header and is not encoded. */
  function EncodeDataRows(csv: seq<seq<string>>, now: string, formatDate: string -> string): (r: seq<Row>)
    ensures |r| == if csv == [] then 0 else |csv| - 1
    ensures forall i | 0 <= i < |r| :: r[i] == RowValues(csv[i + 1], now, formatDate)
  {
    if csv == [] then []
    else seq(|csv| - 1, i requires 0 <= i < |csv| - 1 => RowValues(csv[i + 1], now, formatDate))
  }
}
