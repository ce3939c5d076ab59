/** Dense matrices stored as flat vectors. The fit keeps the predictors twice:
    column-major as the caller passed them (`X[row + col * n]`) and row-major
    (`Xt[row * p + col]`) so that one observation's predictors are contiguous.
    Both are modelled as the concatenation of equally long blocks (columns or
    rows); the flat index formulas are lemmas about that concatenation. */
module Matrix {
  import opened Numeric

  /** Concatenation of blocks, front to back. */
  function Flatten(blocks: seq<seq<real>>): seq<real>
    decreases |blocks|
  {
    if |blocks| == 0 then [] else Flatten(blocks[..|blocks| - 1]) + blocks[|blocks| - 1]
  }

  /** Every block has length `m`. */
  predicate Uniform(blocks: seq<seq<real>>, m: nat)
  {
    forall k :: 0 <= k < |blocks| ==> |blocks[k]| == m
  }

  /** Flat position `a * m + b` of entry `b` of block `a` lies below `n * m`. */
  lemma IndexBound(a: nat, b: nat, n: nat, m: nat)
    requires a < n && b < m
    ensures a * m + b < n * m
  {
    calc {
      a * m + b;
    <
      a * m + m;
    ==
      (a + 1) * m;
    <=  { MulMonotone(a + 1, n, m); }
      n * m;
    }
  }

  lemma {:induction false} FlattenConcat(a: seq<seq<real>>, b: seq<seq<real>>)
    ensures Flatten(a + b) == Flatten(a) + Flatten(b)
    decreases |b|
  {
    if |b| == 0 {
      assert a + b == a;
    } else {
      var init := b[..|b| - 1];
      assert (a + b)[..|a + b| - 1] == a + init;
      FlattenConcat(a, init);
      assert Flatten(a + b) == Flatten(a + init) + b[|b| - 1];
      assert Flatten(b) == Flatten(init) + b[|b| - 1];
    }
  }

  lemma {:induction false} FlattenLength(blocks: seq<seq<real>>, m: nat)
    requires Uniform(blocks, m)
    ensures |Flatten(blocks)| == |blocks| * m
    decreases |blocks|
  {
    if |blocks| > 0 {
      FlattenLength(blocks[..|blocks| - 1], m);
      assert (|blocks| - 1) * m + m == |blocks| * m;
    }
  }

  /** Entry `j` of block `k` sits at flat position `k * m + j`. */
  lemma {:induction false} FlattenIndex(blocks: seq<seq<real>>, m: nat, k: nat, j: nat)
    requires Uniform(blocks, m)
    requires k < |blocks| && j < m
    ensures k * m + j < |Flatten(blocks)|
    ensures Flatten(blocks)[k * m + j] == blocks[k][j]
    decreases |blocks|
  {
    FlattenLength(blocks, m);
    IndexBound(k, j, |blocks|, m);
    var init := blocks[..|blocks| - 1];
    FlattenLength(init, m);
    if k < |blocks| - 1 {
      FlattenIndex(init, m, k, j);
    } else {
      assert k * m + j == |Flatten(init)| + j;
    }
  }

  /** A flat vector of `k * m` entries cut into `k` consecutive blocks of `m`. */
  function Chunks(v: seq<real>, m: nat, k: nat): (blocks: seq<seq<real>>)
    requires |v| == k * m
    ensures |blocks| == k && Uniform(blocks, m)
    decreases k
  {
    if k == 0 then []
    else
      assert k * m == (k - 1) * m + m;
      Chunks(v[..(k - 1) * m], m, k - 1) + [v[(k - 1) * m..]]
  }

  lemma {:induction false} FlattenChunks(v: seq<real>, m: nat, k: nat)
    requires |v| == k * m
    ensures Flatten(Chunks(v, m, k)) == v
    decreases k
  {
    if k > 0 {
      assert k * m == (k - 1) * m + m;
      var c := Chunks(v, m, k);
      assert c[..k - 1] == Chunks(v[..(k - 1) * m], m, k - 1);
      FlattenChunks(v[..(k - 1) * m], m, k - 1);
      assert v[..(k - 1) * m] + v[(k - 1) * m..] == v;
    }
  }

  lemma ChunksFlatten(blocks: seq<seq<real>>, m: nat)
    requires Uniform(blocks, m)
    ensures |Flatten(blocks)| == |blocks| * m
    ensures Chunks(Flatten(blocks), m, |blocks|) == blocks
  {
    FlattenLength(blocks, m);
    var c := Chunks(Flatten(blocks), m, |blocks|);
    forall k | 0 <= k < |blocks|
      ensures c[k] == blocks[k]
    {
      forall j | 0 <= j < m
        ensures c[k][j] == blocks[k][j]
      {
        ChunkEntry(Flatten(blocks), m, |blocks|, k, j);
        FlattenIndex(blocks, m, k, j);
      }
    }
  }

  /** Entry `j` of chunk `k` is the flat entry `k * m + j`. */
  lemma {:induction false} ChunkEntry(v: seq<real>, m: nat, k: nat, i: nat, j: nat)
    requires |v| == k * m && i < k && j < m
    ensures i * m + j < |v| && Chunks(v, m, k)[i][j] == v[i * m + j]
    decreases k
  {
    IndexBound(i, j, k, m);
    assert k * m == (k - 1) * m + m;
    if i < k - 1 {
      ChunkEntry(v[..(k - 1) * m], m, k - 1, i, j);
    }
  }

  /** Blocks exchanged with positions: entry `i` of block `j` becomes entry `j` of block `i`. */
  function Transpose(blocks: seq<seq<real>>, m: nat): (t: seq<seq<real>>)
    requires Uniform(blocks, m)
    ensures |t| == m && Uniform(t, |blocks|)
    ensures forall i, j :: 0 <= i < m && 0 <= j < |blocks| ==> t[i][j] == blocks[j][i]
  {
    seq(m, i requires 0 <= i < m => seq(|blocks|, j requires 0 <= j < |blocks| => blocks[j][i]))
  }

  lemma TransposeTwice(blocks: seq<seq<real>>, m: nat)
    requires Uniform(blocks, m)
    ensures Transpose(Transpose(blocks, m), |blocks|) == blocks
  {
    var tt := Transpose(Transpose(blocks, m), |blocks|);
    forall j | 0 <= j < |blocks|
      ensures tt[j] == blocks[j]
    {
      assert |tt[j]| == m == |blocks[j]|;
    }
  }

  /** The `p` columns of an `n` by `p` column-major matrix. */
  function Columns(X: seq<real>, n: nat, p: nat): (cols: seq<seq<real>>)
    requires |X| == n * p
    ensures |cols| == p && Uniform(cols, n)
  {
    assert n * p == p * n;
    Chunks(X, n, p)
  }

  /** The `n` rows of an `n` by `p` row-major matrix. */
  function Rows(Xt: seq<real>, n: nat, p: nat): (rows: seq<seq<real>>)
    requires |Xt| == n * p
    ensures |rows| == n && Uniform(rows, p)
  {
    Chunks(Xt, p, n)
  }

  /** The row-major copy `Xt` the fit builds from the caller's column-major `X`. */
  function ToRowMajor(X: seq<real>, n: nat, p: nat): (Xt: seq<real>)
    requires |X| == n * p
    ensures |Xt| == n * p
  {
    var rows := Transpose(Columns(X, n, p), n);
    FlattenLength(rows, p);
    Flatten(rows)
  }

  /** The inverse layout change: row-major back to column-major. */
  function ToColumnMajor(Xt: seq<real>, n: nat, p: nat): (X: seq<real>)
    requires |Xt| == n * p
    ensures |X| == n * p
  {
    var cols := Transpose(Rows(Xt, n, p), p);
    FlattenLength(cols, n);
    assert p * n == n * p;
    Flatten(cols)
  }

  /** The transpose loop's defining equation, `Xt[row * p + col] == X[row + col * n]`. */
  lemma ToRowMajorIndex(X: seq<real>, n: nat, p: nat, row: nat, col: nat)
    requires |X| == n * p && row < n && col < p
    ensures row * p + col < n * p && col * n + row < n * p
    ensures ToRowMajor(X, n, p)[row * p + col] == X[col * n + row]
  {
    var cols := Columns(X, n, p);
    var rows := Transpose(cols, n);
    FlattenIndex(rows, p, row, col);
    FlattenLength(rows, p);
    assert ToRowMajor(X, n, p) == Flatten(rows);
    assert |X| == p * n;
    ChunkEntry(X, n, p, col, row);
    assert cols == Chunks(X, n, p);
    assert rows[row][col] == cols[col][row];
  }

  /** Row `row` of the row-major copy holds observation `row`'s predictors. */
  lemma RowsOfRowMajor(X: seq<real>, n: nat, p: nat)
    requires |X| == n * p
    ensures Rows(ToRowMajor(X, n, p), n, p) == Transpose(Columns(X, n, p), n)
  {
    ChunksFlatten(Transpose(Columns(X, n, p), n), p);
  }

  /** Row `i` of the row-major `n` by `p` matrix `Xt`: the features starting at
      offset `i * p`. */
  function Row(Xt: seq<real>, n: nat, p: nat, i: nat): (x: seq<real>)
    requires |Xt| == n * p && i < n
    ensures |x| == p
    ensures forall j :: 0 <= j < p ==> i * p + j < |Xt| && x[j] == Xt[i * p + j]
  {
    RowEnd(i, n, p);
    Xt[i * p .. i * p + p]
  }

  /** Row `i` ends within the matrix. */
  lemma RowEnd(i: nat, n: nat, p: nat)
    requires i < n
    ensures i * p + p <= n * p
  {
    MulMonotone(i + 1, n, p);
  }

  /** Changing the layout and changing it back gives the caller's matrix again. */
  lemma RowMajorRoundTrip(X: seq<real>, n: nat, p: nat)
    requires |X| == n * p
    ensures ToColumnMajor(ToRowMajor(X, n, p), n, p) == X
  {
    var cols := Columns(X, n, p);
    RowsOfRowMajor(X, n, p);
    TransposeTwice(cols, n);
    assert n * p == p * n;
    FlattenChunks(X, n, p);
  }

  /** Column `col` replaced by `c` in a column-major matrix (the `memcpy` into `X`). */
  function ReplaceColumn(X: seq<real>, n: nat, p: nat, col: nat, c: seq<real>): (Y: seq<real>)
    requires |X| == n * p && col < p && |c| == n
    ensures |Y| == n * p
    ensures Columns(Y, n, p) == Columns(X, n, p)[col := c]
  {
    var cols := Columns(X, n, p)[col := c];
    FlattenLength(cols, n);
    assert p * n == n * p;
    ChunksFlatten(cols, n);
    Flatten(cols)
  }

  /** Column `col` replaced by `c` in a row-major matrix (the `Xt[row * p + col]` loop). */
  function ReplaceColumnRowMajor(Xt: seq<real>, n: nat, p: nat, col: nat, c: seq<real>): (Y: seq<real>)
    requires |Xt| == n * p && col < p && |c| == n
    ensures |Y| == n * p
    ensures forall row :: 0 <= row < n ==> Rows(Y, n, p)[row] == Rows(Xt, n, p)[row][col := c[row]]
  {
    var rows := Rows(Xt, n, p);
    var updated := seq(n, row requires 0 <= row < n => rows[row][col := c[row]]);
    FlattenLength(updated, p);
    ChunksFlatten(updated, p);
    Flatten(updated)
  }

  /** Writing a column into both copies keeps the row-major copy the transpose
      of the column-major one. */
  lemma ReplaceColumnCommutes(X: seq<real>, n: nat, p: nat, col: nat, c: seq<real>)
    requires |X| == n * p && col < p && |c| == n
    ensures ToRowMajor(ReplaceColumn(X, n, p, col, c), n, p)
         == ReplaceColumnRowMajor(ToRowMajor(X, n, p), n, p, col, c)
  {
    var Y := ReplaceColumn(X, n, p, col, c);
    var lhs := ToRowMajor(Y, n, p);
    var rhs := ReplaceColumnRowMajor(ToRowMajor(X, n, p), n, p, col, c);
    var colsX := Columns(X, n, p);
    RowsOfRowMajor(Y, n, p);
    RowsOfRowMajor(X, n, p);
    assert Columns(Y, n, p) == colsX[col := c];
    forall row | 0 <= row < n
      ensures Rows(lhs, n, p)[row] == Rows(rhs, n, p)[row]
    {
      TransposeReplace(colsX, n, col, c, row);
    }
    assert Rows(lhs, n, p) == Rows(rhs, n, p);
    FlattenChunks(lhs, p, n);
    FlattenChunks(rhs, p, n);
  }

  /** Replacing block `col` and then transposing changes entry `col` of each row. */
  lemma TransposeReplace(cols: seq<seq<real>>, n: nat, col: nat, c: seq<real>, row: nat)
    requires Uniform(cols, n) && col < |cols| && |c| == n && row < n
    ensures Uniform(cols[col := c], n)
    ensures Transpose(cols[col := c], n)[row] == Transpose(cols, n)[row][col := c[row]]
  {
    var a := Transpose(cols[col := c], n)[row];
    var b := Transpose(cols, n)[row][col := c[row]];
    assert |a| == |b|;
    forall k | 0 <= k < |a|
      ensures a[k] == b[k]
    {
    }
  }

  /** The columns `base` after writing `newColumns[i]` over column `columns[i]`
      for each `i` in turn. */
  function Replaced<T>(base: seq<T>, columns: seq<nat>, newColumns: seq<T>): (cols: seq<T>)
    requires |newColumns| == |columns|
    requires forall i :: 0 <= i < |columns| ==> columns[i] < |base|
    ensures |cols| == |base|
  {
    if |columns| == 0 then base
    else
      var k := |columns| - 1;
      Replaced(base, columns[..k], newColumns[..k])[columns[k] := newColumns[k]]
  }

  lemma ReplacedStep<T>(base: seq<T>, columns: seq<nat>, newColumns: seq<T>, i: nat)
    requires |newColumns| == |columns| && i < |columns|
    requires forall k :: 0 <= k < |columns| ==> columns[k] < |base|
    ensures Replaced(base, columns[..i + 1], newColumns[..i + 1])
         == Replaced(base, columns[..i], newColumns[..i])[columns[i] := newColumns[i]]
  {
    assert columns[..i + 1][..i] == columns[..i];
    assert newColumns[..i + 1][..i] == newColumns[..i];
  }

  /** After all the writes, a listed column holds its last replacement and
      every other column is untouched. */
  lemma {:induction false} ReplacedEntries<T>(base: seq<T>, columns: seq<nat>, newColumns: seq<T>)
    requires |newColumns| == |columns|
    requires forall i :: 0 <= i < |columns| ==> columns[i] < |base|
    ensures forall j :: 0 <= j < |base| ==>
      Replaced(base, columns, newColumns)[j] ==
        (if j in columns then newColumns[LastIndexOf(columns, j)] else base[j])
    decreases |columns|
  {
    if |columns| > 0 {
      var k := |columns| - 1;
      var cs := columns[..k];
      var ns := newColumns[..k];
      ReplacedEntries(base, cs, ns);
      assert columns == cs + [columns[k]];
      forall j | 0 <= j < |base|
        ensures Replaced(base, columns, newColumns)[j] ==
          (if j in columns then newColumns[LastIndexOf(columns, j)] else base[j])
      {
        if j != columns[k] && j in cs {
          LastIndexOfPrefix(columns, j);
        }
      }
    }
  }

  /** Position of the last occurrence of `j` in `s`: a column listed twice ends
      up with its later replacement. */
  function LastIndexOf(s: seq<nat>, j: nat): (k: nat)
    requires j in s
    ensures k < |s| && s[k] == j
    ensures forall m :: k < m < |s| ==> s[m] != j
  {
    if s[|s| - 1] == j then |s| - 1 else LastIndexOf(s[..|s| - 1], j)
  }

  lemma LastIndexOfPrefix(s: seq<nat>, j: nat)
    requires |s| > 0 && j in s[..|s| - 1] && s[|s| - 1] != j
    ensures LastIndexOf(s, j) == LastIndexOf(s[..|s| - 1], j)
  {
  }

  /** The column-major matrix `X` with the listed columns replaced in turn. */
  function WithColumns(X: seq<real>, n: nat, p: nat, columns: seq<nat>, newColumns: seq<seq<real>>): (Y: seq<real>)
    requires |X| == n * p && |newColumns| == |columns|
    requires forall i :: 0 <= i < |columns| ==> columns[i] < p && |newColumns[i]| == n
    ensures |Y| == n * p
    ensures Columns(Y, n, p) == Replaced(Columns(X, n, p), columns, newColumns)
  {
    var cols := Replaced(Columns(X, n, p), columns, newColumns);
    ReplacedEntries(Columns(X, n, p), columns, newColumns);
    assert Uniform(cols, n);
    FlattenLength(cols, n);
    assert p * n == n * p;
    ChunksFlatten(cols, n);
    Flatten(cols)
  }

  /** A column-major matrix is determined by its columns. */
  lemma ColumnsDetermine(X: seq<real>, Y: seq<real>, n: nat, p: nat)
    requires |X| == n * p && |Y| == n * p && Columns(X, n, p) == Columns(Y, n, p)
    ensures X == Y
  {
    assert n * p == p * n;
    FlattenChunks(X, n, p);
    FlattenChunks(Y, n, p);
  }

  /** Writes `newColumns[i]` over column `columns[i]`, for each `i` in turn, in
      the column-major matrix and entry by entry in its row-major copy. */
  method WriteColumns(X: seq<real>, Xt: seq<real>, n: nat, p: nat, columns: seq<nat>, newColumns: seq<seq<real>>)
    returns (X': seq<real>, Xt': seq<real>)
    requires |X| == n * p && Xt == ToRowMajor(X, n, p)
    requires |newColumns| == |columns|
    requires forall i :: 0 <= i < |columns| ==> columns[i] < p && |newColumns[i]| == n
    ensures X' == WithColumns(X, n, p, columns, newColumns) && Xt' == ToRowMajor(X', n, p)
  {
    X', Xt' := X, Xt;
    for i := 0 to |columns|
      invariant |X'| == n * p && Xt' == ToRowMajor(X', n, p)
      invariant Columns(X', n, p) == Replaced(Columns(X, n, p), columns[..i], newColumns[..i])
    {
      ReplaceColumnCommutes(X', n, p, columns[i], newColumns[i]);
      ReplacedStep(Columns(X, n, p), columns, newColumns, i);
      X' := ReplaceColumn(X', n, p, columns[i], newColumns[i]);
      Xt' := ReplaceColumnRowMajor(Xt', n, p, columns[i], newColumns[i]);
    }
    assert columns[..|columns|] == columns && newColumns[..|columns|] == newColumns;
    ColumnsDetermine(X', WithColumns(X, n, p, columns, newColumns), n, p);
  }
}
