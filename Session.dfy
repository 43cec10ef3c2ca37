/** The browser's mutable state: the focus index and cursor flag kept by the
    Tab handler, the parsed contents of the "limit" and "offset" fields, and
    what the output panel shows. Database queries are not part of the model:
    a handler that pages returns the offset its query would use, and the rows
    that query returns are handed to Show. */
module Session {
  import opened GoInt
  import opened ResultTable
  import opened Pager
  import opened Focus

  /** The output panel is blank until the first query result is written. */
  datatype Panel = Blank | Shows(table: Table)

  class Browser {
    var active: nat        // index of the focused panel in Views
    var cursor: bool       // whether the text cursor is shown
    var limitField: int    // the "limit" field, as strconv.Atoi reads it
    var pageField: int     // the "offset" field (a page number), as strconv.Atoi reads it
    var output: Panel      // the "output" panel

    ghost predicate Valid()
      reads this
    {
      && active < |Views|
      && cursor == CursorShown(active)
      && IsInt(limitField)
      && IsInt(pageField)
    }

    /** Start-up: the first panel has the focus with the cursor on, the limit
        field reads 30 and the page field 1. */
    constructor ()
      ensures Valid()
      ensures active == 0 && cursor
      ensures limitField == 30 && pageField == 1
      ensures output == Blank
    {
      active, cursor := 0, true;
      limitField, pageField := 30, 1;
      output := Blank;
    }

    /** Tab: focus the next panel cyclically. When the toolkit fails to
        focus it, the handler returns that error and nothing changes. */
    method NextView(focusFails: bool) returns (target: string, ok: bool)
      requires Valid()
      modifies this`active, this`cursor
      ensures Valid()
      ensures target == Views[Next(old(active))]
      ensures ok == !focusFails
      ensures ok ==> active == Next(old(active)) && (cursor <==> active in {0, 2, 3})
      ensures !ok ==> active == old(active) && cursor == old(cursor)
    {
      var nextIndex := (active + 1) % |Views|;
      target := Views[nextIndex];
      if focusFails {
        return target, false;
      }
      if nextIndex == 0 || nextIndex == 2 || nextIndex == 3 {
        cursor := true;
      } else {
        cursor := false;
      }
      active := nextIndex;
      ok := true;
    }

    /** The user edits the limit field; `parsed` is what strconv.Atoi makes
        of the new text (0 when it is not a number). The field is marked
        editable, but no handler ever gives it the focus (Tab cycles only the
        four panels of Views), so the program as written never runs this. */
    method EditLimit(parsed: int)
      requires Valid() && IsInt(parsed)
      modifies this`limitField
      ensures Valid() && limitField == parsed
    {
      limitField := parsed;
    }

    /** The user edits the page field; `parsed` is what strconv.Atoi makes
        of the new text (0 when it is not a number). As with EditLimit, the
        field never gets the focus, so the program as written never runs this. */
    method EditPage(parsed: int)
      requires Valid() && IsInt(parsed)
      modifies this`pageField
      ensures Valid() && pageField == parsed
    {
      pageField := parsed;
    }

    /** Next page: the page field goes up by one and is written back before
        the query runs; the query skips the rows in front of the new page. */
    method NextPage() returns (offset: int)
      requires Valid()
      modifies this`pageField
      ensures Valid()
      ensures pageField == NextPageOf(old(pageField))
      ensures old(pageField) < MaxInt ==> pageField == old(pageField) + 1
      ensures offset == OffsetOf(limitField, pageField)
    {
      var page := pageField;
      page := Add(page, 1);
      pageField := page;
      offset := Sub(Mul(limitField, page), limitField);
      GoOffsetIsOffset(limitField, page);
    }

    /** Previous page: the page field goes down by one only from above 1 and
        is written back before the query runs. */
    method PrevPage() returns (offset: int)
      requires Valid()
      modifies this`pageField
      ensures Valid()
      ensures pageField == PrevPageOf(old(pageField))
      ensures old(pageField) >= 1 ==> pageField >= 1
      ensures offset == OffsetOf(limitField, pageField)
    {
      var page := pageField;
      if page > 1 {
        page := page - 1;
      }
      pageField := page;
      offset := Sub(Mul(limitField, page), limitField);
      GoOffsetIsOffset(limitField, page);
    }

    /** Every query handler ends the same way: the output panel is cleared
        and replaced by the table made from the query's result. */
    method Show(rs: ResultSet)
      requires Valid() && WellFormed(rs)
      modifies this`output
      ensures Valid()
      ensures output == Shows(Render(rs))
    {
      var header, body := Format(rs.columns, rs.rows);
      assert body == Render(rs).body;
      output := Shows(Table(header, body));
    }
  }

  /** With the start-up limit of 30: "next" twice reaches pages 2 and 3 with
      offsets 30 and 60, "previous" comes back to page 2 with offset 30, and
      "previous" on a freshly started browser stays on page 1 with offset 0. */
  method DefaultPaging() returns (first: int, second: int, back: int, floor: int)
    ensures first == 30 && second == 60 && back == 30 && floor == 0
  {
    var b := new Browser();
    first := b.NextPage();
    assert b.pageField == 2;
    second := b.NextPage();
    assert b.pageField == 3;
    back := b.PrevPage();
    var started := new Browser();
    floor := started.PrevPage();
    assert started.pageField == 1;
  }

  /** The columns id and name with the rows (1, "a") and (2, nil) give the
      header id, name and the rows ("1", "a") and ("2", "null"). */
  method FormatExample() returns (header: seq<Text>, body: seq<seq<Text>>)
    ensures header == [Ascii("id"), Ascii("name")]
    ensures body == [[Ascii("1"), Ascii("a")], [Ascii("2"), Ascii("null")]]
  {
    var columns := [Ascii("id"), Ascii("name")];
    var rows := [[Bytes(Ascii("1")), Bytes(Ascii("a"))], [Bytes(Ascii("2")), Null]];
    assert Ascii("id") != Ascii("name");
    DedupOfDistinct(columns);
    header, body := Format(columns, rows);
    assert Ascii("null") == NullText;
    assert body[0] == [Ascii("1"), Ascii("a")];
    assert body[1] == [Ascii("2"), Ascii("null")];
  }

  /** A join that returns two columns named id gets one header entry for
      them while every row keeps both values. */
  method RepeatedColumnExample() returns (header: seq<Text>, body: seq<seq<Text>>)
    ensures header == [Ascii("id")]
    ensures body == [[Ascii("1"), Ascii("7")]]
  {
    var id := Ascii("id");
    var columns := [id, id];
    var rows := [[Bytes(Ascii("1")), Bytes(Ascii("7"))]];
    assert columns[..1] == [id] && [id][..0] == [];
    assert Dedup([id]) == [id];
    assert Dedup(columns) == [id];
    header, body := Format(columns, rows);
    assert body[0] == [Ascii("1"), Ascii("7")];
  }
}
