/**
 `ExcelLoader.load`: folds the rows of every sheet of a workbook into one text
 document. The first non-blank row of the workbook is the header; every later
 non-blank row becomes a record pairing header names with that row's truthy
 cells; the JSON encodings of the records are joined with a blank line.

 A workbook is its sheets, a sheet its rows, a row its cells. The JSON encoder is
 a parameter: a record is handed to it as its (key, value) pairs in dictionary
 order.
 */
module ExcelLoader {
  import opened Wrappers

  /** A cell value as read in values-only mode; `Blank` is Python's `None`. */
  datatype Cell = Blank | Text(s: string) | Int(i: int) | Boolean(b: bool)

  type Row = seq<Cell>
  type Sheet = seq<Row>
  type Workbook = seq<Sheet>

  /** A Python dict from header name to cell, in insertion order. */
  type Record = seq<(string, Cell)>

  /** The page content of a langchain `Document`. */
  datatype Document = Document(pageContent: string)

  /** Python truthiness of a cell: `None`, `''`, `0` and `False` are falsy. */
  predicate Truthy(c: Cell)
    ensures Truthy(c) ==> c != Blank && c != Int(0) && c != Text("") && c != Boolean(false)
  {
    match c
    case Blank => false
    case Text(s) => s != ""
    case Int(i) => i != 0
    case Boolean(b) => b
  }

  function DigitChar(d: nat): char
    requires d < 10
  {
    "0123456789"[d]
  }

  function NatToString(n: nat): (r: string)
    ensures |r| > 0
  {
    if n < 10 then [DigitChar(n)] else NatToString(n / 10) + [DigitChar(n % 10)]
  }

  /** Python's `str` of a cell. */
  function CellToString(c: Cell): (r: string)
    ensures c == Blank ==> r == "None"
    ensures c.Text? ==> r == c.s
  {
    match c
    case Blank => "None"
    case Text(s) => s
    case Int(i) => if i < 0 then "-" + NatToString(-i) else NatToString(i)
    case Boolean(b) => if b then "True" else "False"
  }

  /** `all(v is None for v in row)`: true of the empty row too. */
  predicate IsBlank(row: Row)
    ensures |row| == 0 ==> IsBlank(row)
  {
    forall i :: 0 <= i < |row| ==> row[i] == Blank
  }

  /** `list(map(str, row))`. */
  function Header(row: Row): (keys: seq<string>)
    ensures |keys| == |row|
    ensures forall i :: 0 <= i < |row| ==> keys[i] == CellToString(row[i])
  {
    seq(|row|, i requires 0 <= i < |row| => CellToString(row[i]))
  }

  /** `zip(keys, row)`: stops at the shorter of the two. */
  function Zip(keys: seq<string>, row: Row): (pairs: seq<(string, Cell)>)
    ensures |pairs| == if |keys| < |row| then |keys| else |row|
    ensures forall i :: 0 <= i < |pairs| ==> pairs[i] == (keys[i], row[i])
  {
    var n := if |keys| < |row| then |keys| else |row|;
    seq(n, i requires 0 <= i < n => (keys[i], row[i]))
  }

  /** The keys of a record, in order. */
  function KeysOf(d: seq<(string, Cell)>): (ks: seq<string>)
    ensures |ks| == |d|
    ensures forall i :: 0 <= i < |d| ==> ks[i] == d[i].0
  {
    seq(|d|, i requires 0 <= i < |d| => d[i].0)
  }

  /** The keys in order of first occurrence, later repeats dropped. */
  function FirstOccurrences(ks: seq<string>): (r: seq<string>)
    ensures forall x :: x in r <==> x in ks
    ensures forall i, j :: 0 <= i < j < |r| ==> r[i] != r[j]
    decreases |ks|
  {
    if ks == [] then []
    else
      var init := ks[..|ks| - 1];
      var before := FirstOccurrences(init);
      assert forall x :: x in ks <==> x in init || x == ks[|ks| - 1];
      if ks[|ks| - 1] in init then before else before + [ks[|ks| - 1]]
  }

  /** One more pair is one more key. */
  lemma KeysOfSnoc(d: seq<(string, Cell)>, p: (string, Cell))
    ensures KeysOf(d + [p]) == KeysOf(d) + [p.0]
  {
  }

  /** One more key is kept when it is new. */
  lemma FirstOccurrencesSnoc(ks: seq<string>, k: string)
    ensures FirstOccurrences(ks + [k]) == if k in ks then FirstOccurrences(ks) else FirstOccurrences(ks) + [k]
  {
    assert (ks + [k])[..|ks|] == ks;
  }

  /** No key occurs twice. */
  predicate UniqueKeys(d: Record)
  {
    forall i, j :: 0 <= i < j < |d| ==> d[i].0 != d[j].0
  }

  /** `d.get(k)`. */
  function Get(d: Record, k: string): (r: Option<Cell>)
    ensures r.None? <==> forall i :: 0 <= i < |d| ==> d[i].0 != k
    ensures r.Some? ==> exists i :: 0 <= i < |d| && d[i] == (k, r.value)
  {
    if d == [] then None
    else if d[0].0 == k then Some(d[0].1)
    else
      var r := Get(d[1..], k);
      assert r.Some? ==> exists i :: 0 <= i < |d[1..]| && d[1..][i] == (k, r.value);
      r
  }

  /** `d[k] = v`: an existing key keeps its position and takes the new value; a new
      key goes at the end. */
  function Insert(d: Record, k: string, v: Cell): (r: Record)
    ensures (exists i :: 0 <= i < |d| && d[i].0 == k) ==> |r| == |d|
    ensures (forall i :: 0 <= i < |d| ==> d[i].0 != k) ==> r == d + [(k, v)]
    ensures forall i :: 0 <= i < |d| ==> r[i].0 == d[i].0
    ensures forall x :: Get(r, x) == if x == k then Some(v) else Get(d, x)
  {
    if d == [] then [(k, v)]
    else if d[0].0 == k then [(k, v)] + d[1..]
    else
      var rest := Insert(d[1..], k, v);
      assert forall x :: Get([d[0]] + rest, x) == if x == d[0].0 then Some(d[0].1) else Get(rest, x);
      [d[0]] + rest
  }

  /** `d[k] = v` leaves the key order alone, or appends `k` when it is new. */
  lemma InsertKeys(d: Record, k: string, v: Cell)
    ensures KeysOf(Insert(d, k, v)) == if k in KeysOf(d) then KeysOf(d) else KeysOf(d) + [k]
  {
    var r := Insert(d, k, v);
    if k in KeysOf(d) {
      var i :| 0 <= i < |d| && KeysOf(d)[i] == k;
      assert d[i].0 == k;
    } else {
      assert forall i :: 0 <= i < |d| ==> d[i].0 != k by {
        forall i | 0 <= i < |d| ensures d[i].0 != k {
          assert KeysOf(d)[i] == d[i].0;
        }
      }
    }
  }

  /** The last position whose pair carries key `k`. */
  function LastIndexOf(ps: seq<(string, Cell)>, k: string): (r: Option<nat>)
    ensures r.None? <==> forall j :: 0 <= j < |ps| ==> ps[j].0 != k
    ensures r.Some? ==> r.value < |ps| && ps[r.value].0 == k
    ensures r.Some? ==> forall j :: r.value < j < |ps| ==> ps[j].0 != k
    decreases |ps|
  {
    if ps == [] then None
    else if ps[|ps| - 1].0 == k then Some(|ps| - 1)
    else LastIndexOf(ps[..|ps| - 1], k)
  }

  /** `dict(pairs)`: keys in order of first occurrence, each with its last value. */
  function DictFromPairs(ps: seq<(string, Cell)>): (d: Record)
    ensures UniqueKeys(d)
    ensures forall k :: Get(d, k) == (var last := LastIndexOf(ps, k); if last.None? then None else Some(ps[last.value].1))
    decreases |ps|
  {
    if ps == [] then []
    else
      var init := ps[..|ps| - 1];
      var before := DictFromPairs(init);
      assert forall k :: LastIndexOf(init, k) == (if ps[|ps| - 1].0 == k then LastIndexOf(init, k) else LastIndexOf(ps, k));
      Insert(before, ps[|ps| - 1].0, ps[|ps| - 1].1)
  }

  /** One more pair is one more assignment. */
  lemma DictFromPairsSnoc(ps: seq<(string, Cell)>, p: (string, Cell))
    ensures DictFromPairs(ps + [p]) == Insert(DictFromPairs(ps), p.0, p.1)
  {
    assert (ps + [p])[..|ps|] == ps;
  }

  /** The keys of `dict(pairs)` come in order of first occurrence. */
  lemma {:induction false} DictFromPairsKeyOrder(ps: seq<(string, Cell)>)
    ensures KeysOf(DictFromPairs(ps)) == FirstOccurrences(KeysOf(ps))
    decreases |ps|
  {
    if ps != [] {
      var init := ps[..|ps| - 1];
      var p := ps[|ps| - 1];
      assert ps == init + [p];
      DictFromPairsSnoc(init, p);
      DictFromPairsKeyOrder(init);
      InsertKeys(DictFromPairs(init), p.0, p.1);
      KeysOfSnoc(init, p);
      FirstOccurrencesSnoc(KeysOf(init), p.0);
    }
  }

  /** `{k: v for k, v in d.items() if v}`. */
  function DropFalsy(d: Record): (r: Record)
    ensures forall i :: 0 <= i < |r| ==> Truthy(r[i].1)
    ensures forall x :: x in r ==> x in d
    ensures UniqueKeys(d) ==> UniqueKeys(r)
    ensures UniqueKeys(d) ==> forall k :: Get(r, k) == if Get(d, k).Some? && Truthy(Get(d, k).value) then Get(d, k) else None
    ensures |d| == 1 ==> r == if Truthy(d[0].1) then d else []
  {
    if d == [] then []
    else
      var rest := DropFalsy(d[1..]);
      if Truthy(d[0].1) then
        assert forall x :: x in [d[0]] + rest ==> x == d[0] || x in rest;
        assert UniqueKeys(d) ==> forall x :: x in rest ==> x.0 != d[0].0 by {
          if UniqueKeys(d) {
            forall x | x in rest ensures x.0 != d[0].0 {
              var j :| 0 <= j < |d[1..]| && d[1..][j] == x;
              assert d[j + 1] == x;
            }
          }
        }
        [d[0]] + rest
      else rest
  }

  /** Dropping falsy pairs keeps the order of the rest: it distributes over
      concatenation, and each single pair is kept exactly when its value is truthy. */
  lemma {:induction false} DropFalsyKeepsOrder(a: Record, b: Record)
    ensures DropFalsy(a + b) == DropFalsy(a) + DropFalsy(b)
    decreases |a|
  {
    if a != [] {
      TailOfConcat(a, b);
      DropFalsyKeepsOrder(a[1..], b);
    } else {
      assert a + b == b;
    }
  }

  /** The record one data row yields: `row_dict` after both assignments at lines 39-40. */
  function RowRecord(keys: seq<string>, row: Row): (r: Record)
    ensures UniqueKeys(r)
    ensures forall i :: 0 <= i < |r| ==> Truthy(r[i].1)
  {
    DropFalsy(DictFromPairs(Zip(keys, row)))
  }

  /** What a record holds under a header name: the cell of the LAST column with that
      name among the first min(|keys|, |row|) columns, and nothing when that cell is
      falsy or no such column exists. */
  lemma RowRecordGet(keys: seq<string>, row: Row, k: string)
    ensures var last := LastIndexOf(Zip(keys, row), k);
      Get(RowRecord(keys, row), k) ==
        if last.Some? && Truthy(row[last.value]) then Some(row[last.value]) else None
  {
  }

  /** A header name maps to a cell exactly when some column pairs them, no later
      column shares the name, and the cell is truthy. */
  lemma RowRecordGetSome(keys: seq<string>, row: Row, k: string, v: Cell)
    ensures Get(RowRecord(keys, row), k) == Some(v) <==>
      exists i :: 0 <= i < |keys| && i < |row| && keys[i] == k && row[i] == v && Truthy(v)
                  && forall j :: i < j < |keys| && j < |row| ==> keys[j] != k
  {
    var z := Zip(keys, row);
    var last := LastIndexOf(z, k);
    RowRecordGet(keys, row, k);
    if Get(RowRecord(keys, row), k) == Some(v) {
      var i := last.value;
      assert z[i] == (keys[i], row[i]);
      assert forall j :: i < j < |z| ==> z[j].0 == keys[j];
    }
    if exists i :: 0 <= i < |keys| && i < |row| && keys[i] == k && row[i] == v && Truthy(v)
                   && forall j :: i < j < |keys| && j < |row| ==> keys[j] != k {
      var i :| 0 <= i < |keys| && i < |row| && keys[i] == k && row[i] == v && Truthy(v)
               && forall j :: i < j < |keys| && j < |row| ==> keys[j] != k;
      assert z[i].0 == k;
      var l := last.value;
      assert z[l] == (keys[l], row[l]);
      assert l == i;
    }
  }

  // ---------------------------------------------------------------------------
  // The fold over the workbook

  /** The loop's variables: `keys` and the records encoded into `data` so far. */
  datatype LoadState = LoadState(keys: seq<string>, records: seq<Record>)

  /** One iteration of the inner loop. */
  function Step(st: LoadState, row: Row): (r: LoadState)
    ensures IsBlank(row) ==> r == st
    ensures !IsBlank(row) ==> r.keys != []
    ensures st.keys != [] ==> r.keys == st.keys
    ensures |r.records| == |st.records| + (if !IsBlank(row) && st.keys != [] then 1 else 0)
  {
    if IsBlank(row) then st
    else if st.keys == [] then LoadState(Header(row), st.records)
    else LoadState(st.keys, st.records + [RowRecord(st.keys, row)])
  }

  /** The loop state after a sequence of rows. */
  function FoldRows(rows: seq<Row>): LoadState
    decreases |rows|
  {
    if rows == [] then LoadState([], [])
    else Step(FoldRows(rows[..|rows| - 1]), rows[|rows| - 1])
  }

  /** The header stays unset exactly while every row so far is blank, and no record
      is produced before it is set. */
  lemma {:induction false} FoldRowsNoHeader(rows: seq<Row>)
    ensures FoldRows(rows).keys == [] <==> forall i :: 0 <= i < |rows| ==> IsBlank(rows[i])
    ensures FoldRows(rows).keys == [] ==> FoldRows(rows).records == []
    decreases |rows|
  {
    if rows != [] {
      var init := rows[..|rows| - 1];
      FoldRowsNoHeader(init);
      assert forall i :: 0 <= i < |init| ==> init[i] == rows[i];
    }
  }

  /** The rows of every sheet, sheet after sheet. */
  function Flatten(wb: Workbook): seq<Row>
    decreases |wb|
  {
    if wb == [] then [] else Flatten(wb[..|wb| - 1]) + wb[|wb| - 1]
  }

  /** The records of a workbook. */
  function LoadRecords(wb: Workbook): seq<Record>
  {
    FoldRows(Flatten(wb)).records
  }

  /** The non-blank rows, in order. */
  function NonBlank(rows: seq<Row>): (r: seq<Row>)
    ensures |r| <= |rows|
    ensures forall i :: 0 <= i < |r| ==> !IsBlank(r[i]) && r[i] in rows
    ensures |rows| == 1 ==> r == if IsBlank(rows[0]) then [] else rows
    decreases |rows|
  {
    if rows == [] then []
    else
      var before := NonBlank(rows[..|rows| - 1]);
      assert forall x :: x in before ==> x in rows;
      if IsBlank(rows[|rows| - 1]) then before else before + [rows[|rows| - 1]]
  }

  /** Every non-blank row is kept. */
  lemma {:induction false} NonBlankComplete(rows: seq<Row>)
    ensures forall i :: 0 <= i < |rows| && !IsBlank(rows[i]) ==> rows[i] in NonBlank(rows)
    decreases |rows|
  {
    if rows != [] {
      var init := rows[..|rows| - 1];
      NonBlankComplete(init);
      assert forall i :: 0 <= i < |init| ==> init[i] == rows[i];
    }
  }

  /** Filtering keeps order: it distributes over concatenation. */
  lemma {:induction false} NonBlankKeepsOrder(a: seq<Row>, b: seq<Row>)
    ensures NonBlank(a + b) == NonBlank(a) + NonBlank(b)
    decreases |b|
  {
    if b == [] {
      assert a + b == a;
    } else {
      var init := b[..|b| - 1];
      assert (a + b)[..|a + b| - 1] == a + init;
      NonBlankKeepsOrder(a, init);
    }
  }

  /** The record of each of `rows` under header `keys`. */
  function RecordsOf(keys: seq<string>, rows: seq<Row>): (r: seq<Record>)
    ensures |r| == |rows|
    ensures forall i :: 0 <= i < |rows| ==> r[i] == RowRecord(keys, rows[i])
    decreases |rows|
  {
    if rows == [] then [] else RecordsOf(keys, rows[..|rows| - 1]) + [RowRecord(keys, rows[|rows| - 1])]
  }

  /** The result the fold is meant to have: the first non-blank row is the header
      and every later non-blank row is a record under it. */
  function Expected(rows: seq<Row>): LoadState
  {
    var nb := NonBlank(rows);
    if nb == [] then LoadState([], [])
    else LoadState(Header(nb[0]), RecordsOf(Header(nb[0]), nb[1..]))
  }

  /** One more row is one more step. */
  lemma FoldRowsSnoc(rows: seq<Row>, row: Row)
    ensures FoldRows(rows + [row]) == Step(FoldRows(rows), row)
  {
    assert (rows + [row])[..|rows|] == rows;
  }

  /** One more row is kept when it is not blank. */
  lemma NonBlankSnoc(rows: seq<Row>, row: Row)
    ensures NonBlank(rows + [row]) == if IsBlank(row) then NonBlank(rows) else NonBlank(rows) + [row]
  {
    assert (rows + [row])[..|rows|] == rows;
  }

  /** One more row is one more record. */
  lemma RecordsOfSnoc(keys: seq<string>, rows: seq<Row>, row: Row)
    ensures RecordsOf(keys, rows + [row]) == RecordsOf(keys, rows) + [RowRecord(keys, row)]
  {
    assert (rows + [row])[..|rows|] == rows;
  }

  /** The fold computes exactly that. */
  lemma {:induction false} FoldRowsIsExpected(rows: seq<Row>)
    ensures FoldRows(rows) == Expected(rows)
    decreases |rows|
  {
    if rows != [] {
      var init := rows[..|rows| - 1];
      var row := rows[|rows| - 1];
      assert rows == init + [row];
      FoldRowsIsExpected(init);
      FoldRowsSnoc(init, row);
      NonBlankSnoc(init, row);
      var nb := NonBlank(init);
      if !IsBlank(row) && nb != [] {
        assert |nb[0]| > 0;
        TailOfConcat(nb, [row]);
        RecordsOfSnoc(Header(nb[0]), nb[1..], row);
      }
    }
  }

  /** Blank rows are skipped, the first non-blank row of the whole workbook is the
      header, and each later non-blank row yields one record, in order. */
  lemma LoadRecordsShape(wb: Workbook)
    ensures var nb := NonBlank(Flatten(wb));
      && |LoadRecords(wb)| == (if nb == [] then 0 else |nb| - 1)
      && forall i :: 0 <= i < |LoadRecords(wb)| ==> LoadRecords(wb)[i] == RowRecord(Header(nb[0]), nb[i + 1])
  {
    FoldRowsIsExpected(Flatten(wb));
  }

  /** The records of two runs of rows, one after the other. */
  lemma RecordsOfConcat(keys: seq<string>, a: seq<Row>, b: seq<Row>)
    ensures RecordsOf(keys, a + b) == RecordsOf(keys, a) + RecordsOf(keys, b)
  {
    var l := RecordsOf(keys, a + b);
    var r := RecordsOf(keys, a) + RecordsOf(keys, b);
    assert forall i :: 0 <= i < |l| ==> l[i] == r[i] by {
      forall i | 0 <= i < |l| ensures l[i] == r[i] {
        if i < |a| {
          assert (a + b)[i] == a[i];
        } else {
          assert (a + b)[i] == b[i - |a|];
        }
      }
    }
  }

  /** Once a header is set, the fold keeps it and appends one record per further
      non-blank row. */
  lemma FoldRowsAfterHeader(rows: seq<Row>, more: seq<Row>)
    requires FoldRows(rows).keys != []
    ensures FoldRows(rows + more) ==
      LoadState(FoldRows(rows).keys, FoldRows(rows).records + RecordsOf(FoldRows(rows).keys, NonBlank(more)))
  {
    FoldRowsIsExpected(rows);
    FoldRowsIsExpected(rows + more);
    NonBlankKeepsOrder(rows, more);
    var nb := NonBlank(rows);
    TailOfConcat(nb, NonBlank(more));
    RecordsOfConcat(Header(nb[0]), nb[1..], NonBlank(more));
  }

  /** Dropping the head of a concatenation with a non-empty left part. */
  lemma TailOfConcat<T>(a: seq<T>, b: seq<T>)
    requires a != []
    ensures (a + b)[0] == a[0] && (a + b)[1..] == a[1..] + b
  {
  }

  /** The header is not reset per sheet: once an earlier sheet has a non-blank row,
      every non-blank row of a further sheet, its first included, is a record. */
  lemma HeaderNotResetPerSheet(wb: Workbook, sheet: Sheet)
    requires NonBlank(Flatten(wb)) != []
    ensures FoldRows(Flatten(wb + [sheet])).keys == FoldRows(Flatten(wb)).keys
    ensures LoadRecords(wb + [sheet]) == LoadRecords(wb) + RecordsOf(FoldRows(Flatten(wb)).keys, NonBlank(sheet))
  {
    assert (wb + [sheet])[..|wb|] == wb;
    assert Flatten(wb + [sheet]) == Flatten(wb) + sheet;
    FoldRowsIsExpected(Flatten(wb));
    assert |NonBlank(Flatten(wb))[0]| > 0;
    FoldRowsAfterHeader(Flatten(wb), sheet);
  }

  // ---------------------------------------------------------------------------
  // Output

  /** Python's `sep.join(parts)`. */
  function Join(sep: string, parts: seq<string>): (r: string)
    ensures |parts| == 0 ==> r == ""
    ensures |parts| == 1 ==> r == parts[0]
    ensures |parts| == 2 ==> r == parts[0] + sep + parts[1]
    ensures |parts| > 0 ==> parts[0] <= r
    ensures |parts| > 0 ==> |parts[|parts| - 1]| <= |r| && r[|r| - |parts[|parts| - 1]|..] == parts[|parts| - 1]
    decreases |parts|
  {
    if |parts| == 0 then ""
    else if |parts| == 1 then parts[0]
    else Join(sep, parts[..|parts| - 1]) + sep + parts[|parts| - 1]
  }

  /** Joining two non-empty runs of parts puts exactly one separator between them. */
  lemma {:induction false} JoinConcat(sep: string, a: seq<string>, b: seq<string>)
    requires a != [] && b != []
    ensures Join(sep, a + b) == Join(sep, a) + sep + Join(sep, b)
    decreases |b|
  {
    var init := b[..|b| - 1];
    var last := b[|b| - 1];
    assert b == init + [last];
    if init == [] {
      JoinSnoc(sep, a, last);
    } else {
      var ja, ji := Join(sep, a), Join(sep, init);
      calc {
        Join(sep, a + b);
        == { assert a + b == (a + init) + [last]; JoinSnoc(sep, a + init, last); }
        Join(sep, a + init) + sep + last;
        == { JoinConcat(sep, a, init); }
        ja + sep + ji + sep + last;
        == { ConcatRegroup(ja + sep, ji, sep, last); }
        ja + sep + (ji + sep + last);
        == { JoinSnoc(sep, init, last); }
        ja + sep + Join(sep, b);
      }
    }
  }

  /** Regrouping a concatenation of four strings. */
  lemma ConcatRegroup(x: string, y: string, z: string, w: string)
    ensures x + y + z + w == x + (y + z + w)
  {
  }

  /** One more part after a non-empty run is one more separator. */
  lemma JoinSnoc(sep: string, parts: seq<string>, p: string)
    requires parts != []
    ensures Join(sep, parts + [p]) == Join(sep, parts) + sep + p
  {
    assert (parts + [p])[..|parts|] == parts;
  }

  /** The encoding of each record, in order. */
  function EncodeAll(encode: Record -> string, records: seq<Record>): (r: seq<string>)
    ensures |r| == |records|
    ensures forall i :: 0 <= i < |records| ==> r[i] == encode(records[i])
    decreases |records|
  {
    if records == [] then [] else EncodeAll(encode, records[..|records| - 1]) + [encode(records[|records| - 1])]
  }

  /** One more record is one more encoding. */
  lemma EncodeAllSnoc(encode: Record -> string, records: seq<Record>, record: Record)
    ensures EncodeAll(encode, records + [record]) == EncodeAll(encode, records) + [encode(record)]
  {
    assert (records + [record])[..|records|] == records;
  }

  /** Taking one more element of `s` after `a`. */
  lemma ConcatPrefix<T>(a: seq<T>, s: seq<T>, i: nat)
    requires i <= |s|
    ensures i == 0 ==> a + s[..i] == a
    ensures 0 < i ==> a + s[..i] == (a + s[..i - 1]) + [s[i - 1]]
    ensures i == |s| ==> a + s[..i] == a + s
  {
    if 0 < i {
      assert s[..i] == s[..i - 1] + [s[i - 1]];
    }
  }

  /** The rows of one more sheet. */
  lemma FlattenPrefix(wb: Workbook, s: nat)
    requires s < |wb|
    ensures Flatten(wb[..s + 1]) == Flatten(wb[..s]) + wb[s]
  {
    assert wb[..s + 1][..s] == wb[..s];
  }

  /** One step of the fold, seen through the encoder. */
  lemma StepEncoded(encode: Record -> string, st: LoadState, row: Row)
    ensures Step(st, row).keys == if IsBlank(row) || st.keys != [] then st.keys else Header(row)
    ensures EncodeAll(encode, Step(st, row).records) ==
      if IsBlank(row) || st.keys == [] then EncodeAll(encode, st.records)
      else EncodeAll(encode, st.records) + [encode(RowRecord(st.keys, row))]
  {
    if !IsBlank(row) && st.keys != [] {
      EncodeAllSnoc(encode, st.records, RowRecord(st.keys, row));
    }
  }

  /** `ExcelLoader.load` on an opened workbook: exactly one document, whose content
      is the encoded records of the fold joined by blank lines. */
  method Load(wb: Workbook, encode: Record -> string) returns (docs: seq<Document>)
    ensures docs == [Document(Join("\n\n", EncodeAll(encode, LoadRecords(wb))))]
  {
    var data: seq<string> := [];
    var keys: seq<string> := [];
    var s := 0;
    while s < |wb|
      invariant 0 <= s <= |wb|
      invariant keys == FoldRows(Flatten(wb[..s])).keys
      invariant data == EncodeAll(encode, FoldRows(Flatten(wb[..s])).records)
    {
      var sheet := wb[s];
      ghost var seen := Flatten(wb[..s]);
      ConcatPrefix(seen, sheet, 0);
      var r := 0;
      while r < |sheet|
        invariant 0 <= r <= |sheet|
        invariant seen == Flatten(wb[..s]) + sheet[..r]
        invariant keys == FoldRows(seen).keys
        invariant data == EncodeAll(encode, FoldRows(seen).records)
      {
        var row := sheet[r];
        FoldRowsSnoc(seen, row);
        StepEncoded(encode, FoldRows(seen), row);
        ConcatPrefix(Flatten(wb[..s]), sheet, r + 1);
        seen := seen + [row];
        if IsBlank(row) {
          // a blank row is skipped
        } else if keys == [] {
          keys := Header(row);
        } else {
          var record := RowRecord(keys, row);
          data := data + [encode(record)];
        }
        r := r + 1;
      }
      ConcatPrefix(Flatten(wb[..s]), sheet, |sheet|);
      FlattenPrefix(wb, s);
      s := s + 1;
    }
    assert wb[..|wb|] == wb;
    docs := [Document(Join("\n\n", data))];
  }

  /** A workbook with no row after the header yields one document with empty content. */
  lemma NoDataRowsEmptyContent(wb: Workbook, encode: Record -> string)
    requires |NonBlank(Flatten(wb))| <= 1
    ensures Join("\n\n", EncodeAll(encode, LoadRecords(wb))) == ""
  {
    LoadRecordsShape(wb);
  }
}
