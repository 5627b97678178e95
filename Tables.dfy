/** Row-major spreadsheet tables of text cells, the failures the scripts can
    raise while reading them, and the list and dictionary operations the
    scripts share (filtering empty cells, stable de-duplication, zip,
    insertion-ordered dictionaries). */
module Tables {

  type Row = seq<string>
  type Table = seq<Row>

  /** The exceptions the scripts raise; each one aborts the whole run. */
  datatype Error =
    | Unpack(row: nat, expected: nat, found: nat)  // ValueError: a row of the wrong width is unpacked into a tuple
    | NotAnInt(cell: string)                       // ValueError: int() of a cell that is not an integer
    | NoAct(act: int)                              // KeyError: an act number other than the keys 1 and 2
    | NoKey(key: string)                           // KeyError: a scene or character that is not in a dictionary
    | NoMatch(text: string)                        // TypeError: parse() found no match and returned None
    | BadDateTime                                  // ValueError: datetime() of an impossible date or time

  datatype Result<T> = Ok(value: T) | Err(error: Error)

  datatype Option<T> = None | Some(value: T)

  /** Every table starts with three header rows that the readers skip. */
  const HeaderRows: nat := 3

  /** The rows after the headers up to (not including) row `i` of the table. */
  function Seen(t: Table, i: nat): seq<Row>
    requires i <= |t|
  {
    if i <= HeaderRows then [] else t[HeaderRows..i]
  }

  /** The longest prefix of `rows` without an empty row. */
  function TakeNonEmpty(rows: seq<Row>): seq<Row>
  {
    if rows == [] || rows[0] == [] then [] else [rows[0]] + TakeNonEmpty(rows[1..])
  }

  /** A prefix without empty rows is a prefix of the longest one, and is
      the longest one when it ends the rows or an empty row follows it. */
  lemma {:induction false} TakeNonEmptyPrefix(rows: seq<Row>, n: nat)
    requires n <= |rows|
    requires forall k :: 0 <= k < n ==> rows[k] != []
    ensures n <= |TakeNonEmpty(rows)| && TakeNonEmpty(rows)[..n] == rows[..n]
    ensures n == |rows| || rows[n] == [] ==> TakeNonEmpty(rows) == rows[..n]
  {
    if n > 0 {
      assert rows[0] != [];
      TakeNonEmptyPrefix(rows[1..], n - 1);
      assert rows[..n] == [rows[0]] + rows[1..][..n - 1];
    }
  }

  /** The data rows a reader with an end-of-table check visits: the three
      header rows are skipped, and reading stops at the first empty row
      after them. */
  function DataRows(t: Table): seq<Row>
  {
    if |t| <= HeaderRows then [] else TakeNonEmpty(t[HeaderRows..])
  }

  /** The longest prefix is a prefix, holds no empty row, and ends the rows
      or stops at an empty one. */
  lemma {:induction false} TakeNonEmptySpec(rows: seq<Row>)
    ensures |TakeNonEmpty(rows)| <= |rows| && TakeNonEmpty(rows) == rows[..|TakeNonEmpty(rows)|]
    ensures forall k :: 0 <= k < |TakeNonEmpty(rows)| ==> rows[k] != []
    ensures |TakeNonEmpty(rows)| == |rows| || rows[|TakeNonEmpty(rows)|] == []
  {
    if rows != [] && rows[0] != [] {
      TakeNonEmptySpec(rows[1..]);
    }
  }

  /** The data rows are the table rows after the headers, in order, none of
      them empty, up to the end of the table or the first empty row. */
  lemma DataRowsSpec(t: Table)
    ensures DataRows(t) == [] || HeaderRows + |DataRows(t)| <= |t|
    ensures forall k :: 0 <= k < |DataRows(t)| ==> DataRows(t)[k] == t[HeaderRows + k] && DataRows(t)[k] != []
    ensures HeaderRows + |DataRows(t)| >= |t| || t[HeaderRows + |DataRows(t)|] == []
  {
    if |t| > HeaderRows {
      TakeNonEmptySpec(t[HeaderRows..]);
    }
  }

  /** No data row before row `i` (0-based) is empty. */
  predicate Filled(t: Table, i: nat)
    requires i <= |t|
  {
    i <= HeaderRows || (t[i - 1] != [] && Filled(t, i - 1))
  }

  lemma {:induction false} FilledRows(t: Table, i: nat)
    requires i <= |t| && Filled(t, i)
    ensures forall k :: HeaderRows <= k < i ==> t[k] != []
  {
    if i > HeaderRows {
      FilledRows(t, i - 1);
    }
  }

  lemma FilledRest(t: Table, i: nat)
    requires i <= |t| && Filled(t, i)
    ensures forall k :: 0 <= k < i - HeaderRows ==> t[HeaderRows..][k] != []
  {
    FilledRows(t, i);
  }

  lemma RestAt(t: Table, i: nat)
    requires HeaderRows <= i < |t|
    ensures t[HeaderRows..][i - HeaderRows] == t[i]
  {
  }

  /** While no empty data row has been met, the rows seen so far are a
      prefix of the data rows; at the end of the table or at an empty data
      row they are all of them. */
  lemma DataRowsFrom(t: Table, i: nat)
    requires i <= |t|
    requires Filled(t, i)
    ensures |Seen(t, i)| <= |DataRows(t)| && Seen(t, i) == DataRows(t)[..|Seen(t, i)|]
    ensures i == |t| || (HeaderRows <= i && t[i] == []) ==> DataRows(t) == Seen(t, i)
  {
    if |t| > HeaderRows {
      var rest := t[HeaderRows..];
      assert DataRows(t) == TakeNonEmpty(rest);
      var n := if i <= HeaderRows then 0 else i - HeaderRows;
      assert Seen(t, i) == rest[..n];
      FilledRest(t, i);
      TakeNonEmptyPrefix(rest, n);
      if HeaderRows <= i < |t| {
        RestAt(t, i);
      }
    }
  }

  /** A left fold of a row step over data rows; the step also receives the
      1-based spreadsheet row number of the row. The first failing row
      aborts the fold. */
  function Fold<S>(rows: seq<Row>, init: S, step: (S, Row, nat) -> Result<S>): Result<S>
  {
    if rows == [] then Ok(init)
    else match Fold(rows[..|rows| - 1], init, step)
      case Err(e) => Err(e)
      case Ok(s) => step(s, rows[|rows| - 1], HeaderRows + |rows|)
  }

  /** Once a prefix of the rows fails, the whole fold fails the same way. */
  lemma {:induction false} FoldErrPersists<S>(rows: seq<Row>, n: nat, init: S, step: (S, Row, nat) -> Result<S>)
    requires n <= |rows|
    requires Fold(rows[..n], init, step).Err?
    ensures Fold(rows, init, step) == Fold(rows[..n], init, step)
    decreases |rows| - n
  {
    if n < |rows| {
      var front := rows[..|rows| - 1];
      assert front[..n] == rows[..n];
      FoldErrPersists(front, n, init, step);
    } else {
      assert rows[..n] == rows;
    }
  }

  /** A failure among the rows seen so far is the failure of the whole
      reader, provided no empty data row came before it. */
  lemma SeenErrIsFinal<S>(t: Table, i: nat, init: S, step: (S, Row, nat) -> Result<S>)
    requires i <= |t|
    requires Filled(t, i)
    requires Fold(Seen(t, i), init, step).Err?
    ensures Fold(DataRows(t), init, step) == Fold(Seen(t, i), init, step)
  {
    DataRowsFrom(t, i);
    FoldErrPersists(DataRows(t), |Seen(t, i)|, init, step);
  }

  /** One more row of a fold that has not failed so far is one more step. */
  lemma FoldSnoc<S>(rows: seq<Row>, init: S, step: (S, Row, nat) -> Result<S>)
    requires rows != [] && Fold(rows[..|rows| - 1], init, step).Ok?
    ensures Fold(rows, init, step)
         == step(Fold(rows[..|rows| - 1], init, step).value, rows[|rows| - 1], HeaderRows + |rows|)
  {
  }

  /** Reading table row `i` (1-based) after the rows before it. */
  lemma FoldSeenNext<S>(t: Table, i: nat, init: S, step: (S, Row, nat) -> Result<S>, st: S)
    requires HeaderRows < i <= |t|
    requires Fold(Seen(t, i - 1), init, step) == Ok(st)
    ensures Fold(Seen(t, i), init, step) == step(st, t[i - 1], i)
  {
    SeenNext(t, i);
  }

  /** The fold step of a reader that appends one value per row, or fails as
      the row does. */
  function AppendStep<T>(f: (Row, nat) -> Result<T>): (seq<T>, Row, nat) -> Result<seq<T>>
  {
    (acc: seq<T>, row: Row, n: nat) => if f(row, n).Err? then Err(f(row, n).error) else Ok(acc + [f(row, n).value])
  }

  /** Appending one value per row makes the `j`-th value of the `j`-th row
      (row number `HeaderRows + 1 + j`), and succeeds exactly when every row
      does; otherwise it fails as the first row that fails. */
  lemma {:induction false} AppendFold<T>(rows: seq<Row>, f: (Row, nat) -> Result<T>)
    ensures Fold(rows, [], AppendStep(f)).Ok? <==> forall j :: 0 <= j < |rows| ==> f(rows[j], HeaderRows + 1 + j).Ok?
    ensures Fold(rows, [], AppendStep(f)).Ok? ==>
      && |Fold(rows, [], AppendStep(f)).value| == |rows|
      && forall j :: 0 <= j < |rows| ==> Fold(rows, [], AppendStep(f)).value[j] == f(rows[j], HeaderRows + 1 + j).value
    ensures Fold(rows, [], AppendStep(f)).Err? ==>
      exists j :: 0 <= j < |rows|
        && f(rows[j], HeaderRows + 1 + j) == Err(Fold(rows, [], AppendStep(f)).error)
        && forall k :: 0 <= k < j ==> f(rows[k], HeaderRows + 1 + k).Ok?
  {
    if rows != [] {
      var front := rows[..|rows| - 1];
      AppendFold(front, f);
      assert forall j :: 0 <= j < |front| ==> front[j] == rows[j];
      if Fold(front, [], AppendStep(f)).Err? {
        var j :| 0 <= j < |front|
          && f(front[j], HeaderRows + 1 + j) == Err(Fold(front, [], AppendStep(f)).error)
          && forall k :: 0 <= k < j ==> f(front[k], HeaderRows + 1 + k).Ok?;
        assert f(rows[j], HeaderRows + 1 + j).Err?;
      }
    }
  }

  /** The rows seen so far are a prefix of all rows after the headers. */
  lemma SeenPrefix(t: Table, i: nat)
    requires i <= |t|
    ensures |Seen(t, i)| <= |Seen(t, |t|)| && Seen(t, |t|)[..|Seen(t, i)|] == Seen(t, i)
  {
  }

  /** Appending the row `i - 1` (0-based) to the rows seen. */
  lemma SeenNext(t: Table, i: nat)
    requires HeaderRows < i <= |t|
    ensures |Seen(t, i)| == i - HeaderRows
    ensures Seen(t, i)[..|Seen(t, i)| - 1] == Seen(t, i - 1)
    ensures Seen(t, i)[|Seen(t, i)| - 1] == t[i - 1]
  {
  }

  /** The first cell of a row (the name a row is about), empty for an
      empty row. */
  function FirstCell(row: Row): string
  {
    if row == [] then "" else row[0]
  }

  /** The first cells of the rows, in row order. */
  function FirstCells(rows: seq<Row>): (names: seq<string>)
    ensures |names| == |rows|
  {
    if rows == [] then [] else FirstCells(rows[..|rows| - 1]) + [FirstCell(rows[|rows| - 1])]
  }

  lemma {:induction false} FirstCellsAt(rows: seq<Row>)
    ensures forall j :: 0 <= j < |rows| ==> FirstCells(rows)[j] == FirstCell(rows[j])
  {
    if rows != [] {
      FirstCellsAt(rows[..|rows| - 1]);
    }
  }

  /** Every row has exactly `w` cells. */
  predicate AllWidth(rows: seq<Row>, w: nat)
  {
    rows == [] || (AllWidth(rows[..|rows| - 1], w) && |rows[|rows| - 1]| == w)
  }

  lemma {:induction false} AllWidthAt(rows: seq<Row>, w: nat)
    requires AllWidth(rows, w)
    ensures forall j :: 0 <= j < |rows| ==> |rows[j]| == w
  {
    if rows != [] {
      AllWidthAt(rows[..|rows| - 1], w);
    }
  }

  /** The non-empty cells of a row segment, in column order, as the
      scripts' filtering loops keep them. */
  function NonEmpty(cells: seq<string>): seq<string>
  {
    if cells == [] then []
    else NonEmpty(cells[..|cells| - 1]) + (if cells[|cells| - 1] != "" then [cells[|cells| - 1]] else [])
  }

  /** A cell is kept exactly when it is present and not empty; no empty
      cell is ever kept, and nothing is added. */
  lemma {:induction false} NonEmptyMembers(cells: seq<string>)
    ensures |NonEmpty(cells)| <= |cells|
    ensures forall x :: x in NonEmpty(cells) <==> x in cells && x != ""
  {
    if cells != [] {
      var front := cells[..|cells| - 1];
      NonEmptyMembers(front);
      assert cells == front + [cells[|cells| - 1]];
    }
  }

  /** Filtering a row segment whose cells are all filled keeps all of them,
      in order. */
  lemma {:induction false} NonEmptyOfFull(cells: seq<string>)
    requires forall k :: 0 <= k < |cells| ==> cells[k] != ""
    ensures NonEmpty(cells) == cells
  {
    if cells != [] {
      NonEmptyOfFull(cells[..|cells| - 1]);
    }
  }

  /** The filtering loop the scripts repeat for every row: keep the
      non-empty cells, in column order. */
  method KeepNonEmpty(cells: seq<string>) returns (kept: seq<string>)
    ensures kept == NonEmpty(cells)
  {
    kept := [];
    var j := 0;
    while j < |cells|
      invariant j <= |cells|
      invariant kept == NonEmpty(cells[..j])
    {
      assert cells[..j + 1][..j] == cells[..j];
      if cells[j] != "" {
        kept := kept + [cells[j]];
      }
      j := j + 1;
    }
    assert cells[..j] == cells;
  }

  /** De-duplication through a dictionary's keys: the elements of `s` without repeats, each
      at the place of its first occurrence. */
  function Dedup(s: seq<string>): seq<string>
  {
    if s == [] then []
    else
      var d := Dedup(s[..|s| - 1]);
      if s[|s| - 1] in d then d else d + [s[|s| - 1]]
  }

  /** The position of the first occurrence of `x` in `s`. */
  function FirstIndex(s: seq<string>, x: string): (k: nat)
    requires x in s
    ensures k < |s| && s[k] == x && x !in s[..k]
  {
    if s[0] == x then 0 else 1 + FirstIndex(s[1..], x)
  }

  lemma {:induction false} FirstIndexInFront(s: seq<string>, x: string)
    requires s != [] && x in s[..|s| - 1]
    ensures FirstIndex(s, x) == FirstIndex(s[..|s| - 1], x)
  {
    var front := s[..|s| - 1];
    if s[0] != x {
      assert front == [s[0]] + front[1..];
      assert s[1..][..|s| - 2] == front[1..];
      FirstIndexInFront(s[1..], x);
    }
  }

  /** Stable de-duplication keeps exactly the elements of the input, each
      once, ordered by first occurrence. */
  lemma {:induction false} DedupSpec(s: seq<string>)
    ensures forall x :: x in Dedup(s) <==> x in s
    ensures forall i, j :: 0 <= i < j < |Dedup(s)| ==> Dedup(s)[i] != Dedup(s)[j]
    ensures forall i, j :: 0 <= i < j < |Dedup(s)| ==>
      FirstIndex(s, Dedup(s)[i]) < FirstIndex(s, Dedup(s)[j])
  {
    if s != [] {
      var front := s[..|s| - 1];
      var last := s[|s| - 1];
      var d := Dedup(front);
      DedupSpec(front);
      assert s == front + [last];
      forall x | x in d ensures FirstIndex(s, x) == FirstIndex(front, x) {
        FirstIndexInFront(s, x);
      }
      if last !in d {
        assert FirstIndex(s, last) == |s| - 1 by {
          assert last !in front;
        }
      }
    }
  }

  /** Python's `zip`: pairs the n-th elements, truncated to the shorter list. */
  function Zip<A, B>(a: seq<A>, b: seq<B>): (z: seq<(A, B)>)
    ensures |z| == if |a| <= |b| then |a| else |b|
    ensures forall k :: 0 <= k < |z| ==> z[k] == (a[k], b[k])
  {
    if a == [] || b == [] then [] else [(a[0], b[0])] + Zip(a[1..], b[1..])
  }

  /** The number of occurrences of `x` in `s`. */
  function Count(s: seq<string>, x: string): nat
  {
    if s == [] then 0 else Count(s[..|s| - 1], x) + (if s[|s| - 1] == x then 1 else 0)
  }

  lemma {:induction false} CountPositive(s: seq<string>, x: string)
    ensures Count(s, x) > 0 <==> x in s
  {
    if s != [] {
      CountPositive(s[..|s| - 1], x);
      assert s == s[..|s| - 1] + [s[|s| - 1]];
    }
  }

  /** `n` copies of `x`. */
  function Repeat(x: string, n: nat): (r: seq<string>)
    ensures |r| == n && forall k :: 0 <= k < n ==> r[k] == x
  {
    if n == 0 then [] else Repeat(x, n - 1) + [x]
  }

  /** A dictionary lookup that reads an absent key as the empty list. */
  function Get(m: map<string, seq<string>>, k: string): seq<string>
  {
    if k in m then m[k] else []
  }

  /** The lists of the keys `scenes`, concatenated in order without
      removing repeats; the first one that is not a key fails with a
      KeyError. */
  function Gather(entries: map<string, seq<string>>, scenes: seq<string>): Result<seq<string>>
  {
    if scenes == [] then Ok([])
    else
      var s := scenes[|scenes| - 1];
      match Gather(entries, scenes[..|scenes| - 1])
      case Err(e) => Err(e)
      case Ok(chars) => if s in entries then Ok(chars + entries[s]) else Err(NoKey(s))
  }

  lemma {:induction false} GatherErrPersists(entries: map<string, seq<string>>, scenes: seq<string>, n: nat)
    requires n <= |scenes| && Gather(entries, scenes[..n]).Err?
    ensures Gather(entries, scenes) == Gather(entries, scenes[..n])
    decreases |scenes| - n
  {
    if n < |scenes| {
      var front := scenes[..|scenes| - 1];
      assert front[..n] == scenes[..n];
      GatherErrPersists(entries, front, n);
    } else {
      assert scenes[..n] == scenes;
    }
  }

  /** Gathering succeeds exactly when every scene is a key, and can only
      fail on a missing key. */
  lemma {:induction false} GatherOk(entries: map<string, seq<string>>, scenes: seq<string>)
    ensures Gather(entries, scenes).Ok? <==> forall s :: s in scenes ==> s in entries
    ensures Gather(entries, scenes).Err? ==> Gather(entries, scenes).error.NoKey?
  {
    if scenes != [] {
      var front := scenes[..|scenes| - 1];
      GatherOk(entries, front);
      assert scenes == front + [scenes[|scenes| - 1]];
    }
  }

  /** Two dictionaries that agree on the scenes gathered gather the same. */
  lemma {:induction false} GatherAgree(e1: map<string, seq<string>>, e2: map<string, seq<string>>, scenes: seq<string>)
    requires forall s :: s in scenes ==> (s in e1 <==> s in e2) && (s in e1 ==> e1[s] == e2[s])
    ensures Gather(e1, scenes) == Gather(e2, scenes)
  {
    if scenes != [] {
      GatherAgree(e1, e2, scenes[..|scenes| - 1]);
    }
  }

  /** What a successful gathering holds: the elements of the lists of the
      keys gathered. */
  lemma {:induction false} GatherMembers(entries: map<string, seq<string>>, scenes: seq<string>, x: string)
    requires Gather(entries, scenes).Ok?
    ensures x in Gather(entries, scenes).value <==> exists s :: s in scenes && s in entries && x in entries[s]
  {
    if scenes != [] {
      var front := scenes[..|scenes| - 1];
      GatherMembers(entries, front, x);
      assert scenes == front + [scenes[|scenes| - 1]];
    }
  }

  /** A Python dictionary from strings to lists of strings: the keys in
      insertion order and the entries. */
  datatype OrderedMap = OrderedMap(keys: seq<string>, entries: map<string, seq<string>>)
  {
    ghost predicate Valid()
    {
      && (forall i, j :: 0 <= i < j < |keys| ==> keys[i] != keys[j])
      && (forall k :: k in entries <==> k in keys)
    }

    /** Storing `v` under `k`: a new key goes to the end of the order, an existing key
        keeps its place. */
    function Put(k: string, v: seq<string>): OrderedMap
    {
      OrderedMap(KeyOrder(keys, k), entries[k := v])
    }
  }

  /** The key order after storing under `k`. */
  function KeyOrder(keys: seq<string>, k: string): seq<string>
  {
    if keys == [] then [k] else if keys[0] == k then keys else [keys[0]] + KeyOrder(keys[1..], k)
  }

  lemma {:induction false} KeyOrderSpec(keys: seq<string>, k: string)
    ensures k in keys ==> KeyOrder(keys, k) == keys
    ensures k !in keys ==> KeyOrder(keys, k) == keys + [k]
  {
    if keys != [] && keys[0] != k {
      KeyOrderSpec(keys[1..], k);
      assert keys == [keys[0]] + keys[1..];
    }
  }

  /** Storing keeps a dictionary well formed, sets exactly the one entry,
      and appends the key to the order only when it is new. */
  lemma PutSpec(m: OrderedMap, k: string, v: seq<string>)
    ensures m.Valid() ==> m.Put(k, v).Valid()
    ensures m.Put(k, v).entries == m.entries[k := v]
    ensures k in m.keys ==> m.Put(k, v).keys == m.keys
    ensures k !in m.keys ==> m.Put(k, v).keys == m.keys + [k]
  {
    KeyOrderSpec(m.keys, k);
  }

  const EmptyMap := OrderedMap([], map[])

  /** A dictionary keyed by act number that has the keys 1 and 2, as the
      scripts create them. */
  type ActMap = m: map<int, seq<string>> | 1 in m && 2 in m witness map[1 := [], 2 := []]

  const NoActs: ActMap := map[1 := [], 2 := []]
}
