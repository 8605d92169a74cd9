/** The order of sorted rows: row comparison with the position as tie-break is a strict
    total order, sorting by it is the stable sort, and any set of rows that lies below the
    rest is a prefix of the sorted sequence. */
module SortOrder {
  import opened Cells
  import opened Relational
  import opened Scalars
  import opened ColumnSegments

  // ----- Key comparison is a total preorder -----

  predicate RowTyped(kinds: seq<Kind>, key: Row) {
    |key| == |kinds| && forall k :: 0 <= k < |key| ==> HasKind(kinds[k], key[k])
  }

  lemma KeyFlip(kind: Kind, asc: bool, a: Cell, b: Cell)
    requires HasKind(kind, a) && HasKind(kind, b)
    ensures CompareKey(asc, a, b) == -CompareKey(asc, b, a)
  {
    if !a.Null? && !b.Null? { CompareCellsTotal(a, b); }
  }

  lemma KeyTransitive(kind: Kind, asc: bool, a: Cell, b: Cell, c: Cell)
    requires HasKind(kind, a) && HasKind(kind, b) && HasKind(kind, c)
    requires CompareKey(asc, a, b) <= 0 && CompareKey(asc, b, c) <= 0
    ensures CompareKey(asc, a, c) <= 0
    ensures CompareKey(asc, a, c) == 0 ==> CompareKey(asc, a, b) == 0 && CompareKey(asc, b, c) == 0
  {
    if !a.Null? && !b.Null? && !c.Null? {
      CompareCellsTotal(a, b);
      CompareCellsTotal(b, c);
      CompareCellsTotal(a, c);
      if asc { CompareCellsTransitive(a, b, c); } else { CompareCellsTransitive(c, b, a); }
    }
  }

  lemma {:induction false} CompareFlip(kinds: seq<Kind>, asc: seq<bool>, a: Row, b: Row, k: nat)
    requires |asc| == |kinds| && RowTyped(kinds, a) && RowTyped(kinds, b) && k <= |asc|
    ensures CompareFrom(asc, a, b, k) == -CompareFrom(asc, b, a, k)
    decreases |asc| - k
  {
    if k < |asc| {
      KeyFlip(kinds[k], asc[k], a[k], b[k]);
      CompareFlip(kinds, asc, a, b, k + 1);
    }
  }

  lemma {:induction false} CompareTransitive(kinds: seq<Kind>, asc: seq<bool>, a: Row, b: Row, c: Row, k: nat)
    requires |asc| == |kinds| && RowTyped(kinds, a) && RowTyped(kinds, b) && RowTyped(kinds, c) && k <= |asc|
    requires CompareFrom(asc, a, b, k) <= 0 && CompareFrom(asc, b, c, k) <= 0
    ensures CompareFrom(asc, a, c, k) <= 0
    ensures CompareFrom(asc, a, c, k) == 0 ==> CompareFrom(asc, a, b, k) == 0 && CompareFrom(asc, b, c, k) == 0
    decreases |asc| - k
  {
    if k < |asc| {
      KeyTransitive(kinds[k], asc[k], a[k], b[k], c[k]);
      if CompareKey(asc[k], a[k], b[k]) == 0 && CompareKey(asc[k], b[k], c[k]) == 0 {
        KeyFlip(kinds[k], asc[k], a[k], b[k]);
        KeyFlip(kinds[k], asc[k], b[k], c[k]);
        KeyFlip(kinds[k], asc[k], a[k], c[k]);
        KeyTransitive(kinds[k], asc[k], c[k], b[k], a[k]);
        CompareTransitive(kinds, asc, a, b, c, k + 1);
      }
    }
  }

  // ----- The order on row positions -----

  /** Keys of all rows, and the order of positions i and j: keys first, then position. */
  predicate KeyLess(asc: seq<bool>, ks: seq<Row>, i: nat, j: nat) {
    && i < |ks| && j < |ks| && |ks[i]| == |ks[j]| == |asc|
    && var c := CompareFrom(asc, ks[i], ks[j], 0);
       c < 0 || (c == 0 && i < j)
  }

  ghost predicate AllTyped(kinds: seq<Kind>, ks: seq<Row>) { forall i :: 0 <= i < |ks| ==> RowTyped(kinds, ks[i]) }

  type Order = (nat, nat) -> bool

  ghost predicate StrictTotal(lt: Order, n: nat) {
    && (forall i: nat, j: nat :: i < n && j < n && i != j ==> (lt(i, j) <==> !lt(j, i)))
    && (forall i: nat :: i < n ==> !lt(i, i))
    && (forall i: nat, j: nat, k: nat :: i < n && j < n && k < n && lt(i, j) && lt(j, k) ==> lt(i, k))
  }

  function ByKeys(asc: seq<bool>, ks: seq<Row>): Order { (i: nat, j: nat) => KeyLess(asc, ks, i, j) }

  lemma KeyLessStrictTotal(kinds: seq<Kind>, asc: seq<bool>, ks: seq<Row>)
    requires |asc| == |kinds| && AllTyped(kinds, ks)
    ensures StrictTotal(ByKeys(asc, ks), |ks|)
  {
    forall i: nat, j: nat | i < |ks| && j < |ks|
      ensures CompareFrom(asc, ks[i], ks[j], 0) == -CompareFrom(asc, ks[j], ks[i], 0)
    {
      CompareFlip(kinds, asc, ks[i], ks[j], 0);
    }
    forall i: nat, j: nat, k: nat | i < |ks| && j < |ks| && k < |ks| && KeyLess(asc, ks, i, j) && KeyLess(asc, ks, j, k)
      ensures KeyLess(asc, ks, i, k)
    {
      CompareTransitive(kinds, asc, ks[i], ks[j], ks[k], 0);
    }
  }

  // ----- Sorted sequences of positions -----

  predicate Sorted(lt: Order, s: seq<nat>) { forall i, j :: 0 <= i < j < |s| ==> lt(s[i], s[j]) }

  ghost predicate Below(n: nat, s: seq<nat>) { forall i :: 0 <= i < |s| ==> s[i] < n }

  /** Everything outside s comes after everything in it. */
  ghost predicate Lowest(lt: Order, n: nat, s: seq<nat>) {
    forall i: nat, k :: i < n && i !in s && 0 <= k < |s| ==> lt(s[k], i)
  }

  lemma NotBefore(lt: Order, n: nat, s: seq<nat>, full: seq<nat>, j: nat)
    requires StrictTotal(lt, n) && Sorted(lt, s) && Sorted(lt, full) && Below(n, s) && Below(n, full) &&
      Lowest(lt, n, s)
    requires j < |s| && j < |full| && forall i :: 0 <= i < j ==> s[i] == full[i]
    ensures !lt(full[j], s[j])
  {
    if full[j] in s {
      var q :| 0 <= q < |s| && s[q] == full[j];
      assert q >= j;
      assert q > j ==> lt(s[j], s[q]);
    } else {
      assert lt(s[j], full[j]);
    }
  }

  lemma NextAgrees(lt: Order, n: nat, s: seq<nat>, full: seq<nat>, j: nat)
    requires StrictTotal(lt, n) && Sorted(lt, s) && Sorted(lt, full) && Below(n, s) && Below(n, full) &&
      Lowest(lt, n, s)
    requires forall i: nat :: i < n ==> i in full
    requires j < |s| && j <= |full| && forall i :: 0 <= i < j ==> s[i] == full[i]
    ensures j < |full| && s[j] == full[j]
  {
    assert s[j] in full;
    var p :| 0 <= p < |full| && full[p] == s[j];
    assert p >= j;
    NotBefore(lt, n, s, full, j);
    assert p == j;
  }

  /** A lowest sorted set of positions is a prefix of all positions sorted. */
  lemma {:induction false} SortedPrefix(lt: Order, n: nat, s: seq<nat>, full: seq<nat>, j: nat)
    requires StrictTotal(lt, n) && Sorted(lt, s) && Sorted(lt, full) && Below(n, s) && Below(n, full) &&
      Lowest(lt, n, s)
    requires forall i: nat :: i < n ==> i in full
    requires j <= |s|
    ensures j <= |full| && forall i :: 0 <= i < j ==> s[i] == full[i]
  {
    if j > 0 {
      SortedPrefix(lt, n, s, full, j - 1);
      NextAgrees(lt, n, s, full, j - 1);
    }
  }

  // ----- Insertion sort of positions -----

  function InsertAt(lt: Order, x: nat, s: seq<nat>): seq<nat> {
    if s == [] then [x]
    else
      var n := |s| - 1;
      if lt(s[n], x) then s + [x] else InsertAt(lt, x, s[..n]) + [s[n]]
  }

  function SortTo(lt: Order, n: nat): seq<nat> {
    if n == 0 then [] else InsertAt(lt, n - 1, SortTo(lt, n - 1))
  }

  lemma {:induction false} InsertMembers(lt: Order, x: nat, s: seq<nat>)
    ensures |InsertAt(lt, x, s)| == |s| + 1
    ensures forall i :: i in InsertAt(lt, x, s) <==> i == x || i in s
  {
    if s != [] {
      var n := |s| - 1;
      assert s == s[..n] + [s[n]];
      InsertMembers(lt, x, s[..n]);
    }
  }

  /** Everything that goes in front of y keeps it in place. */
  lemma AllBefore(lt: Order, x: nat, init: seq<nat>, y: nat)
    requires lt(x, y) && forall i :: 0 <= i < |init| ==> lt(init[i], y)
    ensures forall i :: 0 <= i < |InsertAt(lt, x, init)| ==> lt(InsertAt(lt, x, init)[i], y)
  {
    InsertMembers(lt, x, init);
    var t := InsertAt(lt, x, init);
    forall i | 0 <= i < |t| ensures lt(t[i], y) {
      assert t[i] in t;
      if t[i] != x { var k :| 0 <= k < |init| && init[k] == t[i]; }
    }
  }

  lemma SortedMore(lt: Order, s: seq<nat>, y: nat)
    requires Sorted(lt, s) && forall i :: 0 <= i < |s| ==> lt(s[i], y)
    ensures Sorted(lt, s + [y])
  {
  }

  lemma {:induction false} InsertSorted(lt: Order, m: nat, x: nat, s: seq<nat>)
    requires StrictTotal(lt, m) && x < m && x !in s && Below(m, s) && Sorted(lt, s)
    ensures Sorted(lt, InsertAt(lt, x, s))
  {
    if s != [] {
      var n := |s| - 1;
      if lt(s[n], x) {
        forall i | 0 <= i < |s| ensures lt(s[i], x) { assert i < n ==> lt(s[i], s[n]); }
        SortedMore(lt, s, x);
      } else {
        InsertSorted(lt, m, x, s[..n]);
        assert s[n] in s;
        AllBefore(lt, x, s[..n], s[n]);
        SortedMore(lt, InsertAt(lt, x, s[..n]), s[n]);
      }
    }
  }

  lemma {:induction false} SortToMembers(lt: Order, n: nat)
    ensures |SortTo(lt, n)| == n && Below(n, SortTo(lt, n))
    ensures forall i: nat :: i in SortTo(lt, n) <==> i < n
  {
    if n > 0 {
      SortToMembers(lt, n - 1);
      InsertMembers(lt, n - 1, SortTo(lt, n - 1));
      var t := SortTo(lt, n);
      forall i | 0 <= i < |t| ensures t[i] < n { assert t[i] in t; }
    }
  }

  lemma {:induction false} SortToSorted(lt: Order, m: nat, n: nat)
    requires StrictTotal(lt, m) && n <= m
    ensures Sorted(lt, SortTo(lt, n))
  {
    if n > 0 {
      SortToSorted(lt, m, n - 1);
      SortToMembers(lt, n - 1);
      InsertSorted(lt, m, n - 1, SortTo(lt, n - 1));
    }
  }

  // ----- Sorting positions is the stable sort of rows -----

  lemma {:induction false} InsertIsInsertRow(keys: seq<Expr>, asc: seq<bool>, rows: seq<Row>, x: nat, s: seq<nat>)
    requires |keys| == |asc| && x < |rows| && Below(x, s)
    ensures Below(|rows|, s) && Below(|rows|, InsertAt(ByKeys(asc, Project(keys, rows)), x, s))
    ensures At(rows, InsertAt(ByKeys(asc, Project(keys, rows)), x, s)) == InsertRow(keys, asc, rows[x], At(rows, s))
  {
    var lt := ByKeys(asc, Project(keys, rows));
    if s != [] {
      var n := |s| - 1;
      InsertIsInsertRow(keys, asc, rows, x, s[..n]);
      assert At(rows, s)[..n] == At(rows, s[..n]);
      assert lt(s[n], x) <==> CompareRows(keys, asc, rows[s[n]], rows[x]) <= 0;
      if !lt(s[n], x) {
        var t := InsertAt(lt, x, s[..n]);
        assert At(rows, t + [s[n]]) == At(rows, t) + [rows[s[n]]];
      }
    }
  }

  lemma {:induction false} SortToIsStableSort(keys: seq<Expr>, asc: seq<bool>, rows: seq<Row>, n: nat)
    requires |keys| == |asc| && n <= |rows|
    ensures Below(|rows|, SortTo(ByKeys(asc, Project(keys, rows)), n))
    ensures At(rows, SortTo(ByKeys(asc, Project(keys, rows)), n)) == StableSort(keys, asc, rows[..n])
  {
    if n > 0 {
      var lt := ByKeys(asc, Project(keys, rows));
      SortToIsStableSort(keys, asc, rows, n - 1);
      SortToMembers(lt, n - 1);
      InsertIsInsertRow(keys, asc, rows, n - 1, SortTo(lt, n - 1));
      assert rows[..n][..n - 1] == rows[..n - 1] && rows[..n][n - 1] == rows[n - 1];
    }
  }

  /** Any lowest sorted set of k positions gives the first k rows of the stable sort. */
  lemma LowestIsPrefix(kinds: seq<Kind>, keys: seq<Expr>, asc: seq<bool>, rows: seq<Row>, s: seq<nat>)
    requires |keys| == |asc| == |kinds| && AllTyped(kinds, Project(keys, rows))
    requires Below(|rows|, s)
    requires var lt := ByKeys(asc, Project(keys, rows)); Sorted(lt, s) && Lowest(lt, |rows|, s)
    ensures |s| <= |StableSort(keys, asc, rows)|
    ensures At(rows, s) == StableSort(keys, asc, rows)[..|s|]
  {
    var lt, n := ByKeys(asc, Project(keys, rows)), |rows|;
    KeyLessStrictTotal(kinds, asc, Project(keys, rows));
    SortToSorted(lt, n, n);
    SortToMembers(lt, n);
    SortToIsStableSort(keys, asc, rows, n);
    var full := SortTo(lt, n);
    SortedPrefix(lt, n, s, full, |s|);
    assert rows[..n] == rows && s[..|s|] == s;
    assert At(rows, full)[..|s|] == At(rows, s);
  }

  // ----- What sorted means -----

  /** Key k is the first, from ki on, in which the rows differ, and it puts a first. */
  ghost predicate DecidedAt(asc: seq<bool>, a: Row, b: Row, ki: nat, k: nat) {
    && ki <= k < |asc| && |a| == |b| == |asc|
    && (forall j :: ki <= j < k ==> a[j] == b[j]) && CellBefore(asc[k], a[k], b[k])
  }

  ghost predicate KeyBefore(asc: seq<bool>, a: Row, b: Row, ki: nat) { exists k: nat :: DecidedAt(asc, a, b, ki, k) }

  predicate SameFrom(a: Row, b: Row, ki: nat) { |a| == |b| && forall j :: ki <= j < |a| ==> a[j] == b[j] }

  lemma CompareKeyMeaning(kind: Kind, asc: bool, a: Cell, b: Cell)
    requires HasKind(kind, a) && HasKind(kind, b)
    ensures CompareKey(asc, a, b) < 0 <==> CellBefore(asc, a, b)
    ensures CompareKey(asc, a, b) == 0 <==> a == b
  {
    if a.Str? && b.Str? {
      StrLessIff(a.s, b.s);
      StrLessIff(b.s, a.s);
      StrLessTotal(a.s, b.s);
    }
  }

  lemma {:induction false} CompareMeaning(kinds: seq<Kind>, asc: seq<bool>, a: Row, b: Row, ki: nat)
    requires |asc| == |kinds| && RowTyped(kinds, a) && RowTyped(kinds, b) && ki <= |asc|
    ensures CompareFrom(asc, a, b, ki) < 0 <==> KeyBefore(asc, a, b, ki)
    ensures CompareFrom(asc, a, b, ki) == 0 <==> SameFrom(a, b, ki)
    decreases |asc| - ki
  {
    if ki < |asc| {
      CompareKeyMeaning(kinds[ki], asc[ki], a[ki], b[ki]);
      CompareMeaning(kinds, asc, a, b, ki + 1);
      if a[ki] == b[ki] {
        LaterKey(asc, a, b, ki);
      } else {
        FirstKey(asc, a, b, ki);
      }
    }
  }

  lemma FirstKey(asc: seq<bool>, a: Row, b: Row, ki: nat)
    requires |a| == |b| == |asc| && ki < |asc| && a[ki] != b[ki]
    ensures KeyBefore(asc, a, b, ki) <==> CellBefore(asc[ki], a[ki], b[ki])
  {
    if CellBefore(asc[ki], a[ki], b[ki]) { assert DecidedAt(asc, a, b, ki, ki); }
    if KeyBefore(asc, a, b, ki) { var k: nat :| DecidedAt(asc, a, b, ki, k); }
  }

  lemma LaterKey(asc: seq<bool>, a: Row, b: Row, ki: nat)
    requires |a| == |b| == |asc| && ki < |asc| && a[ki] == b[ki] && !CellBefore(asc[ki], a[ki], b[ki])
    ensures KeyBefore(asc, a, b, ki) <==> KeyBefore(asc, a, b, ki + 1)
  {
    if KeyBefore(asc, a, b, ki) {
      var k: nat :| DecidedAt(asc, a, b, ki, k);
      assert DecidedAt(asc, a, b, ki + 1, k);
    }
    if KeyBefore(asc, a, b, ki + 1) {
      var k: nat :| DecidedAt(asc, a, b, ki + 1, k);
      assert DecidedAt(asc, a, b, ki, k);
    }
  }

  /** The keys of row i put it before row j, or all keys are equal and i came first. */
  ghost predicate ComesFirst(keys: seq<Expr>, asc: seq<bool>, rows: seq<Row>, i: nat, j: nat)
    requires i < |rows| && j < |rows|
  {
    var a, b := EvalAll(keys, rows[i]), EvalAll(keys, rows[j]);
    KeyBefore(asc, a, b, 0) || (a == b && i < j)
  }

  /** All positions of the rows, each once, in the order asked for. */
  ghost predicate SortedPositions(keys: seq<Expr>, asc: seq<bool>, rows: seq<Row>, p: seq<nat>) {
    && |p| == |rows| && (forall i :: 0 <= i < |p| ==> p[i] < |rows|) && (forall i: nat :: i < |rows| ==> i in p)
    && (forall i, j :: 0 <= i < j < |p| ==> p[i] != p[j] && ComesFirst(keys, asc, rows, p[i], p[j]))
  }

  /** The stable sort: a permutation of the rows in which every row comes before all later
      ones. */
  lemma StableSortMeaning(kinds: seq<Kind>, keys: seq<Expr>, asc: seq<bool>, rows: seq<Row>) returns (p: seq<nat>)
    requires |keys| == |asc| == |kinds| && AllTyped(kinds, Project(keys, rows))
    ensures SortedPositions(keys, asc, rows, p) && StableSort(keys, asc, rows) == At(rows, p)
  {
    var ks, n := Project(keys, rows), |rows|;
    var lt := ByKeys(asc, ks);
    p := SortTo(lt, n);
    KeyLessStrictTotal(kinds, asc, ks);
    SortToSorted(lt, n, n);
    SortToMembers(lt, n);
    SortToIsStableSort(keys, asc, rows, n);
    assert rows[..n] == rows;
    forall i, j | 0 <= i < j < |p| ensures p[i] != p[j] && ComesFirst(keys, asc, rows, p[i], p[j]) {
      LessComesFirst(kinds, keys, asc, rows, p[i], p[j]);
    }
  }

  lemma LessComesFirst(kinds: seq<Kind>, keys: seq<Expr>, asc: seq<bool>, rows: seq<Row>, i: nat, j: nat)
    requires |keys| == |asc| == |kinds| && AllTyped(kinds, Project(keys, rows))
    requires KeyLess(asc, Project(keys, rows), i, j)
    ensures i != j && ComesFirst(keys, asc, rows, i, j)
  {
    var a, b := EvalAll(keys, rows[i]), EvalAll(keys, rows[j]);
    assert Project(keys, rows)[i] == a && Project(keys, rows)[j] == b;
    CompareMeaning(kinds, asc, a, b, 0);
    if i == j { CompareFlip(kinds, asc, a, b, 0); }
  }

  // ----- Filtering and sorting commute -----

  /** Every key has one kind of value on all the rows. */
  ghost predicate OneKind(keys: seq<Expr>, rows: seq<Row>) {
    exists kinds: seq<Kind> :: KeysTyped(kinds, keys, rows)
  }

  ghost predicate KeysTyped(kinds: seq<Kind>, keys: seq<Expr>, rows: seq<Row>) {
    |kinds| == |keys| && forall r <- rows :: RowTyped(kinds, EvalAll(keys, r))
  }

  ghost predicate NoneAfter(keys: seq<Expr>, asc: seq<bool>, rows: seq<Row>, x: Row)
    requires |keys| == |asc|
  {
    forall r <- rows :: CompareRows(keys, asc, r, x) <= 0
  }

  /** Every row comes after none of the rows behind it. */
  ghost predicate InOrder(keys: seq<Expr>, asc: seq<bool>, s: seq<Row>)
    requires |keys| == |asc|
  {
    s != [] ==> NoneAfter(keys, asc, s[..|s| - 1], s[|s| - 1]) && InOrder(keys, asc, s[..|s| - 1])
  }

  lemma NoneAfterLater(kinds: seq<Kind>, keys: seq<Expr>, asc: seq<bool>, rows: seq<Row>, y: Row, x: Row)
    requires |keys| == |asc| && KeysTyped(kinds, keys, rows) && KeysTyped(kinds, keys, [y, x])
    requires NoneAfter(keys, asc, rows, y) && CompareRows(keys, asc, y, x) <= 0
    ensures NoneAfter(keys, asc, rows, x)
  {
    assert y in [y, x] && x in [y, x];
    forall r | r in rows ensures CompareRows(keys, asc, r, x) <= 0 {
      CompareTransitive(kinds, asc, EvalAll(keys, r), EvalAll(keys, y), EvalAll(keys, x), 0);
    }
  }

  /** Rows that do not come after x keep it at the end. */
  lemma InsertLast(keys: seq<Expr>, asc: seq<bool>, s: seq<Row>, x: Row)
    requires |keys| == |asc| && NoneAfter(keys, asc, s, x)
    ensures InsertRow(keys, asc, x, s) == s + [x]
  {
    if s != [] { assert s[|s| - 1] in s; }
  }

  lemma {:induction false} InsertInOrder(kinds: seq<Kind>, keys: seq<Expr>, asc: seq<bool>, x: Row, s: seq<Row>)
    requires |keys| == |asc| && InOrder(keys, asc, s) && KeysTyped(kinds, keys, s) && KeysTyped(kinds, keys, [x])
    ensures InOrder(keys, asc, InsertRow(keys, asc, x, s))
  {
    assert x in [x];
    if s != [] {
      var n := |s| - 1;
      assert s[n] in s && s == s[..n] + [s[n]];
      if CompareRows(keys, asc, s[n], x) <= 0 {
        NoneAfterLater(kinds, keys, asc, s[..n], s[n], x);
        assert (s + [x])[..|s|] == s;
      } else {
        InsertInOrder(kinds, keys, asc, x, s[..n]);
        var t := InsertRow(keys, asc, x, s[..n]);
        InsertRowMembers(keys, asc, x, s[..n]);
        CompareFlip(kinds, asc, EvalAll(keys, x), EvalAll(keys, s[n]), 0);
        assert (t + [s[n]])[..|t|] == t;
      }
    } else {
      assert [x][..0] == [];
    }
  }

  lemma {:induction false} StableSortInOrder(kinds: seq<Kind>, keys: seq<Expr>, asc: seq<bool>, rows: seq<Row>)
    requires |keys| == |asc| && KeysTyped(kinds, keys, rows)
    ensures InOrder(keys, asc, StableSort(keys, asc, rows)) && KeysTyped(kinds, keys, StableSort(keys, asc, rows))
  {
    StableSortMembers(keys, asc, rows);
    if rows != [] {
      var n := |rows| - 1;
      StableSortInOrder(kinds, keys, asc, rows[..n]);
      InsertInOrder(kinds, keys, asc, rows[n], StableSort(keys, asc, rows[..n]));
    }
  }

  lemma {:induction false} KeepInsert(kinds: seq<Kind>, preds: seq<Expr>, keys: seq<Expr>, asc: seq<bool>, x: Row,
      s: seq<Row>)
    requires |keys| == |asc| && InOrder(keys, asc, s) && KeysTyped(kinds, keys, s) && KeysTyped(kinds, keys, [x])
    ensures Keep(preds, InsertRow(keys, asc, x, s)) ==
      if AllHold(preds, x) then InsertRow(keys, asc, x, Keep(preds, s)) else Keep(preds, s)
  {
    if s == [] {
      KeepOne(preds, x);
    } else {
      var n := |s| - 1;
      assert s[n] in s && x in [x];
      if CompareRows(keys, asc, s[n], x) <= 0 {
        NoneAfterLater(kinds, keys, asc, s[..n], s[n], x);
        assert s == s[..n] + [s[n]];
        KeepInsertLast(preds, keys, asc, x, s);
      } else {
        KeepInsert(kinds, preds, keys, asc, x, s[..n]);
        KeepInsertBefore(preds, keys, asc, x, s[..n], s[n]);
        assert s == s[..n] + [s[n]];
      }
    }
  }

  lemma KeepInsertLast(preds: seq<Expr>, keys: seq<Expr>, asc: seq<bool>, x: Row, s: seq<Row>)
    requires |keys| == |asc| && NoneAfter(keys, asc, s, x)
    ensures Keep(preds, InsertRow(keys, asc, x, s)) ==
      if AllHold(preds, x) then InsertRow(keys, asc, x, Keep(preds, s)) else Keep(preds, s)
  {
    KeepMembers(preds, s);
    InsertLast(keys, asc, s, x);
    InsertLast(keys, asc, Keep(preds, s), x);
    KeepMore(preds, s, x);
  }

  lemma KeepInsertBefore(preds: seq<Expr>, keys: seq<Expr>, asc: seq<bool>, x: Row, s: seq<Row>, y: Row)
    requires |keys| == |asc| && CompareRows(keys, asc, y, x) > 0
    requires Keep(preds, InsertRow(keys, asc, x, s)) ==
      if AllHold(preds, x) then InsertRow(keys, asc, x, Keep(preds, s)) else Keep(preds, s)
    ensures Keep(preds, InsertRow(keys, asc, x, s + [y])) ==
      if AllHold(preds, x) then InsertRow(keys, asc, x, Keep(preds, s + [y])) else Keep(preds, s + [y])
  {
    InsertBefore(keys, asc, x, s, y);
    InsertBefore(keys, asc, x, Keep(preds, s), y);
    KeepMore(preds, s, y);
    KeepMore(preds, InsertRow(keys, asc, x, s), y);
  }

  lemma InsertBefore(keys: seq<Expr>, asc: seq<bool>, x: Row, s: seq<Row>, y: Row)
    requires |keys| == |asc| && CompareRows(keys, asc, y, x) > 0
    ensures InsertRow(keys, asc, x, s + [y]) == InsertRow(keys, asc, x, s) + [y]
  {
    assert (s + [y])[..|s|] == s;
  }

  /** With keys of one kind each, filtering the sorted rows is sorting the filtered rows. */
  lemma FilterSorted(preds: seq<Expr>, keys: seq<Expr>, asc: seq<bool>, rows: seq<Row>)
    requires |keys| == |asc| && OneKind(keys, rows)
    ensures Keep(preds, StableSort(keys, asc, rows)) == StableSort(keys, asc, Keep(preds, rows))
  {
    var kinds: seq<Kind> :| KeysTyped(kinds, keys, rows);
    FilterSortedTyped(kinds, preds, keys, asc, rows);
  }

  lemma {:induction false} FilterSortedTyped(kinds: seq<Kind>, preds: seq<Expr>, keys: seq<Expr>, asc: seq<bool>,
      rows: seq<Row>)
    requires |keys| == |asc| && KeysTyped(kinds, keys, rows)
    ensures Keep(preds, StableSort(keys, asc, rows)) == StableSort(keys, asc, Keep(preds, rows))
  {
    if rows != [] {
      var n := |rows| - 1;
      FilterSortedTyped(kinds, preds, keys, asc, rows[..n]);
      assert rows == rows[..n] + [rows[n]];
      FilterSortedMore(kinds, preds, keys, asc, rows[..n], rows[n]);
    }
  }

  lemma FilterSortedMore(kinds: seq<Kind>, preds: seq<Expr>, keys: seq<Expr>, asc: seq<bool>, rows: seq<Row>, x: Row)
    requires |keys| == |asc| && KeysTyped(kinds, keys, rows + [x])
    requires Keep(preds, StableSort(keys, asc, rows)) == StableSort(keys, asc, Keep(preds, rows))
    ensures Keep(preds, StableSort(keys, asc, rows + [x])) == StableSort(keys, asc, Keep(preds, rows + [x]))
  {
    StableSortInOrder(kinds, keys, asc, rows);
    KeepInsert(kinds, preds, keys, asc, x, StableSort(keys, asc, rows));
    SortOneMore(keys, asc, rows, x);
    SortOneMore(keys, asc, Keep(preds, rows), x);
    KeepMore(preds, rows, x);
  }

  lemma SortOneMore(keys: seq<Expr>, asc: seq<bool>, rows: seq<Row>, x: Row)
    requires |keys| == |asc|
    ensures StableSort(keys, asc, rows + [x]) == InsertRow(keys, asc, x, StableSort(keys, asc, rows))
  {
    assert (rows + [x])[..|rows|] == rows;
  }
}
