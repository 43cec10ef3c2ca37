/** The result-set formatter: turns the column names and the scanned rows of a
    query into the header and the string rows handed to the table writer.
    The same loop appears in outputDb, selectAll, nexPage and prevPage. */
module ResultTable {

  /** Go strings and []byte values are byte sequences. */
  newtype byte = b: int | 0 <= b < 256
  type Text = seq<byte>

  /** One scanned value, as the loop accepts it: nil or a []byte. Any other
      dynamic type makes the loop's type assertion panic; that path is not
      part of this model. */
  datatype Cell = Null | Bytes(data: Text)

  /** A transient result set: the column names and the rows, in result order. */
  datatype ResultSet = ResultSet(columns: seq<Text>, rows: seq<seq<Cell>>)

  /** What is written to the output panel: a header and one string row per result row. */
  datatype Table = Table(header: seq<Text>, body: seq<seq<Text>>)

  /** The literal "null" (ASCII n, u, l, l) that stands for a nil value. */
  const NullText: Text := [0x6E, 0x75, 0x6C, 0x6C]

  /** ASCII text as bytes, for writing concrete examples. */
  function Ascii(s: string): Text
    requires forall i :: 0 <= i < |s| ==> s[i] as int < 128
  {
    seq(|s|, i requires 0 <= i < |s| => s[i] as int as byte)
  }

  /** Every row has one scanned value per column: the scan buffer is made with
      exactly as many slots as there are columns. */
  ghost predicate WellFormed(rs: ResultSet) {
    forall k :: 0 <= k < |rs.rows| ==> |rs.rows[k]| == |rs.columns|
  }

  /** A cell's text: "null" for nil, the bytes themselves otherwise. */
  function RenderCell(c: Cell): (t: Text)
    ensures c.Bytes? ==> t == c.data
    ensures t == NullText <==> c.Null? || c.data == NullText
  {
    match c
    case Null => NullText
    case Bytes(b) => b
  }

  /** A row's texts: one per scanned value, in column order. */
  function RenderRow(r: seq<Cell>): (out: seq<Text>)
    ensures |out| == |r|
    ensures forall i :: 0 <= i < |r| && r[i].Null? ==> out[i] == NullText
    ensures forall i :: 0 <= i < |r| && r[i].Bytes? ==> out[i] == r[i].data
  {
    seq(|r|, i requires 0 <= i < |r| => RenderCell(r[i]))
  }

  ghost predicate Distinct(s: seq<Text>) {
    forall i, j :: 0 <= i < j < |s| ==> s[i] != s[j]
  }

  /** The column names with repeats dropped, keeping first occurrences:
      the header the loop builds while it walks the columns once. */
  function Dedup(names: seq<Text>): (h: seq<Text>)
    ensures |h| <= |names|
    decreases |names|
  {
    if names == [] then []
    else
      var h := Dedup(names[..|names| - 1]);
      var last := names[|names| - 1];
      if last in h then h else h + [last]
  }

  /** The header the loop leaves behind: it is filled only while a row is
      being converted, so a result with no rows has an empty header. */
  function HeaderOf(columns: seq<Text>, rowCount: nat): (h: seq<Text>)
    ensures rowCount == 0 ==> h == []
    ensures |h| <= |columns|
  {
    if rowCount == 0 then [] else Dedup(columns)
  }

  /** The table that one run of the formatter produces. */
  function Render(rs: ResultSet): (t: Table)
    ensures |t.body| == |rs.rows| && |t.header| <= |rs.columns|
    ensures rs.rows == [] ==> t.header == []
    ensures WellFormed(rs) ==> forall k :: 0 <= k < |rs.rows| ==> |t.body[k]| == |rs.columns|
  {
    Table(HeaderOf(rs.columns, |rs.rows|),
          seq(|rs.rows|, k requires 0 <= k < |rs.rows| => RenderRow(rs.rows[k])))
  }

  /** Index of the first occurrence of x in s. */
  function FirstIndex(s: seq<Text>, x: Text): (r: nat)
    requires x in s
    ensures r < |s| && s[r] == x && x !in s[..r]
  {
    if s[0] == x then 0
    else
      var r := 1 + FirstIndex(s[1..], x);
      assert s[..r] == [s[0]] + s[1..][..r - 1];
      r
  }

  /** The names of h appear in strictly increasing order of their first
      position in `names`. */
  ghost predicate IncreasingFirst(names: seq<Text>, h: seq<Text>) {
    forall i, j :: 0 <= i < j < |h| ==> FirstBefore(names, h[i], h[j])
  }

  /** x and y both occur in `names`, x first. */
  ghost predicate FirstBefore(names: seq<Text>, x: Text, y: Text) {
    x in names && y in names && FirstIndex(names, x) < FirstIndex(names, y)
  }

  /** An independent description of the header: h holds exactly the names of
      `names`, listed by strictly increasing first position in `names`. */
  ghost predicate FirstOccurrenceOrder(names: seq<Text>, h: seq<Text>) {
    (forall x :: x in h <==> x in names) && IncreasingFirst(names, h)
  }

  lemma FirstIndexUnique(s: seq<Text>, x: Text, k: nat)
    requires k < |s| && s[k] == x && x !in s[..k]
    ensures FirstIndex(s, x) == k
  {
  }

  /** The header holds a name exactly when some column has that name. */
  lemma {:induction false} DedupElements(names: seq<Text>)
    ensures forall x :: x in Dedup(names) <==> x in names
    decreases |names|
  {
    if names != [] {
      var p := names[..|names| - 1];
      DedupElements(p);
      assert names == p + [names[|names| - 1]];
    }
  }

  /** No name appears twice in the header. */
  lemma {:induction false} DedupDistinct(names: seq<Text>)
    ensures Distinct(Dedup(names))
    decreases |names|
  {
    if names != [] {
      DedupDistinct(names[..|names| - 1]);
    }
  }

  /** The header is never longer than the column list, and it is exactly as
      long precisely when no column name repeats. */
  lemma {:induction false} DedupLength(names: seq<Text>)
    ensures |Dedup(names)| <= |names|
    ensures |Dedup(names)| == |names| <==> Distinct(names)
    decreases |names|
  {
    if names != [] {
      var n := |names|;
      var p := names[..n - 1];
      var last := names[n - 1];
      DedupLength(p);
      DedupElements(p);
      if last in p {
        var f := FirstIndex(p, last);
        assert names[f] == names[n - 1];
        assert !Distinct(names);
      } else {
        if Distinct(p) {
          forall i, j | 0 <= i < j < n ensures names[i] != names[j] {
            if j == n - 1 {
              assert names[i] == p[i];
            } else {
              assert names[i] == p[i] && names[j] == p[j];
            }
          }
        } else {
          var i, j :| 0 <= i < j < n - 1 && p[i] == p[j];
          assert names[i] == names[j];
        }
      }
    }
  }

  /** Columns without repeats come back unchanged. */
  lemma {:induction false} DedupOfDistinct(names: seq<Text>)
    requires Distinct(names)
    ensures Dedup(names) == names
    decreases |names|
  {
    if names != [] {
      var p := names[..|names| - 1];
      assert Distinct(p) by {
        forall i, j | 0 <= i < j < |p| ensures p[i] != p[j] {
          assert p[i] == names[i] && p[j] == names[j];
        }
      }
      DedupOfDistinct(p);
      assert names[|names| - 1] !in p;
      assert names == p + [names[|names| - 1]];
    }
  }

  /** Applying the de-duplication to its own output changes nothing. */
  lemma DedupIdempotent(names: seq<Text>)
    ensures Dedup(Dedup(names)) == Dedup(names)
  {
  }

  /** Every name in a prefix keeps the first position it has in the prefix. */
  lemma FirstIndexOfPrefix(s: seq<Text>, n: nat, x: Text)
    requires n <= |s| && x in s[..n]
    ensures x in s && FirstIndex(s, x) == FirstIndex(s[..n], x)
  {
    var f := FirstIndex(s[..n], x);
    assert s[..n][..f] == s[..f];
    FirstIndexUnique(s, x, f);
  }

  /** The header meets the independent description: same names, in order of
      first occurrence. */
  lemma {:induction false} DedupFirstOccurrence(names: seq<Text>)
    ensures FirstOccurrenceOrder(names, Dedup(names))
    decreases |names|
  {
    DedupElements(names);
    if names != [] {
      var n := |names|;
      var p := names[..n - 1];
      var last := names[n - 1];
      DedupFirstOccurrence(p);
      IncreasingFirstOfPrefix(names, n - 1, Dedup(p));
      if last !in Dedup(p) {
        IncreasingFirstAppend(names, Dedup(p));
      }
    }
  }

  /** An order by first position in a prefix is an order by first position
      in the whole sequence. */
  lemma IncreasingFirstOfPrefix(names: seq<Text>, n: nat, h: seq<Text>)
    requires n <= |names| && IncreasingFirst(names[..n], h)
    ensures IncreasingFirst(names, h)
  {
    forall i, j | 0 <= i < j < |h|
      ensures FirstBefore(names, h[i], h[j])
    {
      assert FirstBefore(names[..n], h[i], h[j]);
      PairOfPrefix(names, n, h[i], h[j]);
    }
  }

  lemma PairOfPrefix(names: seq<Text>, n: nat, x: Text, y: Text)
    requires n <= |names| && FirstBefore(names[..n], x, y)
    ensures FirstBefore(names, x, y)
  {
    FirstIndexOfPrefix(names, n, x);
    FirstIndexOfPrefix(names, n, y);
  }

  /** Appending the last column, when it is new, keeps the order by first
      position: its first position is the last one. */
  lemma IncreasingFirstAppend(names: seq<Text>, h: seq<Text>)
    requires names != [] && IncreasingFirst(names, h)
    requires forall x :: x in h <==> x in names[..|names| - 1]
    requires names[|names| - 1] !in h
    ensures IncreasingFirst(names, h + [names[|names| - 1]])
  {
    var n := |names|;
    var last := names[n - 1];
    FirstIndexUnique(names, last, n - 1);
    forall i | 0 <= i < |h| ensures h[i] in names && FirstIndex(names, h[i]) < n - 1 {
      assert h[i] in h;
      FirstIndexOfPrefix(names, n - 1, h[i]);
    }
    var h' := h + [last];
    forall i, j | 0 <= i < j < |h'|
      ensures FirstBefore(names, h'[i], h'[j])
    {
      assert h'[i] == h[i];
    }
  }

  /** Dropping the first name of an increasing sequence leaves an increasing
      sequence holding every other name. */
  lemma IncreasingFirstTail(names: seq<Text>, h: seq<Text>)
    requires h != [] && h[0] in names && IncreasingFirst(names, h)
    ensures IncreasingFirst(names, h[1..])
    ensures forall x :: x in h[1..] <==> x in h && x != h[0]
  {
    var t := h[1..];
    forall x ensures x in t <==> x in h && x != h[0] {
      if x in t {
        var i :| 0 <= i < |t| && t[i] == x;
        assert h[i + 1] == x;
      }
      if x in h && x != h[0] {
        var i :| 0 <= i < |h| && h[i] == x;
        assert t[i - 1] == x;
      }
    }
    forall i, j | 0 <= i < j < |t|
      ensures FirstBefore(names, t[i], t[j])
    {
      assert t[i] == h[i + 1] && t[j] == h[j + 1];
    }
  }

  /** Two sequences over the same names, both in increasing first-position
      order, are equal. */
  lemma {:induction false} IncreasingFirstUnique(names: seq<Text>, h1: seq<Text>, h2: seq<Text>)
    requires forall x :: x in h1 ==> x in names
    requires forall x :: x in h1 <==> x in h2
    requires IncreasingFirst(names, h1) && IncreasingFirst(names, h2)
    ensures h1 == h2
    decreases |h1|
  {
    if h1 == [] {
      assert forall i :: 0 <= i < |h2| ==> h2[i] in h2;
    } else {
      assert h1[0] in h1;
      assert h2 != [];
      assert h2[0] in h2;
      var a, b := h1[0], h2[0];
      assert a == b by {
        var i :| 0 <= i < |h1| && h1[i] == b;
        var j :| 0 <= j < |h2| && h2[j] == a;
      }
      IncreasingFirstTail(names, h1);
      IncreasingFirstTail(names, h2);
      IncreasingFirstUnique(names, h1[1..], h2[1..]);
      assert h1 == [a] + h1[1..] && h2 == [b] + h2[1..];
    }
  }

  /** The header equals the de-duplicated columns exactly when it satisfies
      the independent description. */
  lemma DedupCharacterized(names: seq<Text>, h: seq<Text>)
    ensures h == Dedup(names) <==> FirstOccurrenceOrder(names, h)
  {
    DedupFirstOccurrence(names);
    if FirstOccurrenceOrder(names, h) {
      IncreasingFirstUnique(names, h, Dedup(names));
    }
  }

  /** A result set whose rows repeat a column name gets a header narrower
      than its rows, so header and cells no longer line up one to one. */
  lemma HeaderNarrowerThanRows(rs: ResultSet)
    requires WellFormed(rs) && rs.rows != [] && !Distinct(rs.columns)
    ensures forall k :: 0 <= k < |rs.rows| ==> |Render(rs).header| < |Render(rs).body[k]|
  {
    DedupLength(rs.columns);
  }

  /** A nil value and a value holding the four bytes "null" render alike. */
  lemma NullIsAmbiguous()
    ensures RenderCell(Null) == RenderCell(Bytes(Ascii("null")))
  {
  }

  /** Rendering a non-nil value keeps its bytes, so two different non-nil
      values never render alike. */
  lemma RenderBytesInjective(a: Text, b: Text)
    ensures RenderCell(Bytes(a)) == RenderCell(Bytes(b)) <==> a == b
  {
  }

  /** The conversion loop shared by outputDb, selectAll, nexPage and prevPage:
      one string row per result row, a nil value turned into "null", and the
      header filled from the columns not yet seen while a row is converted. */
  method Format(columns: seq<Text>, rows: seq<seq<Cell>>) returns (header: seq<Text>, body: seq<seq<Text>>)
    requires forall k :: 0 <= k < |rows| ==> |rows[k]| == |columns|
    ensures |body| == |rows|
    ensures forall k :: 0 <= k < |rows| ==> |body[k]| == |columns|
    ensures forall k, i :: 0 <= k < |rows| && 0 <= i < |columns| ==>
              body[k][i] == (if rows[k][i].Null? then NullText else rows[k][i].data)
    ensures forall k :: 0 <= k < |rows| ==> body[k] == RenderRow(rows[k])
    ensures rows == [] ==> header == []
    ensures rows != [] ==> FirstOccurrenceOrder(columns, header)
    ensures header == HeaderOf(columns, |rows|)
  {
    header, body := [], [];
    var seen: set<Text> := {};
    var k := 0;
    while k < |rows|
      invariant 0 <= k <= |rows|
      invariant |body| == k
      invariant forall m :: 0 <= m < k ==> body[m] == RenderRow(rows[m])
      invariant header == HeaderOf(columns, k)
      invariant forall x :: x in seen <==> x in header
    {
      var row: seq<Text> := [];
      var i := 0;
      if k > 0 {
        DedupElements(columns);
      }
      while i < |columns|
        invariant 0 <= i <= |columns|
        invariant |row| == i
        invariant forall m :: 0 <= m < i ==> row[m] == RenderCell(rows[k][m])
        invariant header == Dedup(if k == 0 then columns[..i] else columns)
        invariant forall x :: x in seen <==> x in header
      {
        var col := columns[i];
        var b := NullText;
        if rows[k][i].Bytes? {
          b := rows[k][i].data;
        }
        row := row + [b];
        if col !in seen {
          header := header + [col];
          seen := seen + {col};
        }
        if k == 0 {
          assert columns[..i + 1][..i] == columns[..i];
        }
        i := i + 1;
      }
      assert columns[..|columns|] == columns;
      assert row == RenderRow(rows[k]);
      body := body + [row];
      k := k + 1;
    }
    if rows != [] {
      DedupFirstOccurrence(columns);
    }
  }
}
