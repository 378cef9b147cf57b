/** The side-by-side alignment of two configurations. */
module VisualDiff {
  datatype Tag = Equal | Replace | Delete | Insert

  /** One block of the matcher: old[i1..i2] against new[j1..j2]. */
  datatype OpCode = OpCode(tag: Tag, i1: nat, i2: nat, j1: nat, j2: nat)

  datatype Class = Context | Changed | Removed | Added

  datatype Row = Row(left: string, right: string, leftClass: Class, rightClass: Class)

  /** The documented contract of `get_opcodes`: consecutive blocks that cover both texts, of the
      shape that their tag says. */
  predicate Tiles(ops: seq<OpCode>, old_: seq<string>, new_: seq<string>, n: nat, m: nat) {
    if ops == [] then n == 0 && m == 0 else
    var op := ops[|ops| - 1];
    && op.i2 == n <= |old_| && op.j2 == m <= |new_| && op.i1 <= op.i2 && op.j1 <= op.j2
    && (op.tag == Equal ==> old_[op.i1..op.i2] == new_[op.j1..op.j2])
    && (op.tag == Delete ==> op.j1 == op.j2)
    && (op.tag == Insert ==> op.i1 == op.i2)
    && Tiles(ops[..|ops| - 1], old_, new_, op.i1, op.j1)
  }

  predicate InRange(op: OpCode, old_: seq<string>, new_: seq<string>) {
    && op.i1 <= op.i2 <= |old_| && op.j1 <= op.j2 <= |new_|
    && (op.tag == Equal ==> op.i2 - op.i1 == op.j2 - op.j1)
  }

  function Pad(block: seq<string>, k: nat): string {
    if k < |block| then block[k] else ""
  }

  function Max(a: nat, b: nat): nat {
    if a >= b then a else b
  }

  function ChangedRow(left: string, right: string): Row {
    Row(left, right, if left != "" then Changed else Context, if right != "" then Changed else Context)
  }

  /** The rows of one block. */
  function RowsOf(op: OpCode, old_: seq<string>, new_: seq<string>): seq<Row>
    requires InRange(op, old_, new_)
  {
    var a, b := old_[op.i1..op.i2], new_[op.j1..op.j2];
    match op.tag
    case Equal => seq(|a|, k requires 0 <= k < |a| => Row(a[k], b[k], Context, Context))
    case Replace => seq(Max(|a|, |b|), k requires 0 <= k => ChangedRow(Pad(a, k), Pad(b, k)))
    case Delete => seq(|a|, k requires 0 <= k < |a| => Row(a[k], "", Removed, Context))
    case Insert => seq(|b|, k requires 0 <= k < |b| => Row("", b[k], Context, Added))
  }

  function Aligned(ops: seq<OpCode>, old_: seq<string>, new_: seq<string>): seq<Row>
    requires forall i :: 0 <= i < |ops| ==> InRange(ops[i], old_, new_)
  {
    if ops == [] then [] else Aligned(ops[..|ops| - 1], old_, new_) + RowsOf(ops[|ops| - 1], old_, new_)
  }

  function Lefts(rows: seq<Row>): seq<string> {
    seq(|rows|, i requires 0 <= i < |rows| => rows[i].left)
  }

  function Rights(rows: seq<Row>): seq<string> {
    seq(|rows|, i requires 0 <= i < |rows| => rows[i].right)
  }

  /** The four lists are the columns of the rows. */
  ghost predicate Columns(left: seq<string>, right: seq<string>, leftClass: seq<Class>, rightClass: seq<Class>,
      rows: seq<Row>) {
    && |left| == |right| == |leftClass| == |rightClass| == |rows|
    && forall k :: 0 <= k < |rows| ==> rows[k] == Row(left[k], right[k], leftClass[k], rightClass[k])
  }

  lemma AppendPair(left: seq<string>, right: seq<string>, leftClass: seq<Class>, rightClass: seq<Class>, rows: seq<Row>,
      r: Row)
    requires Columns(left, right, leftClass, rightClass, rows)
    ensures Columns(left + [r.left], right + [r.right], leftClass + [r.leftClass], rightClass + [r.rightClass],
        rows + [r])
  {
  }

  /** The loop over the opcodes. */
  method AlignBlocks(old_: seq<string>, new_: seq<string>, ops: seq<OpCode>)
    returns (left: seq<string>, right: seq<string>, leftClass: seq<Class>, rightClass: seq<Class>)
    requires forall i :: 0 <= i < |ops| ==> InRange(ops[i], old_, new_)
    ensures Columns(left, right, leftClass, rightClass, Aligned(ops, old_, new_))
  {
    left, right, leftClass, rightClass := [], [], [], [];
    for n := 0 to |ops|
      invariant Columns(left, right, leftClass, rightClass, Aligned(ops[..n], old_, new_))
    {
      assert ops[..n + 1][..n] == ops[..n];
      left, right, leftClass, rightClass :=
          AppendBlock(old_, new_, ops[n], left, right, leftClass, rightClass, Aligned(ops[..n], old_, new_));
    }
    assert ops[..|ops|] == ops;
  }

  /** The rows of one block, appended pair by pair. */
  method AppendBlock(old_: seq<string>, new_: seq<string>, op: OpCode, left0: seq<string>, right0: seq<string>,
                     leftClass0: seq<Class>, rightClass0: seq<Class>, ghost done: seq<Row>)
    returns (left: seq<string>, right: seq<string>, leftClass: seq<Class>, rightClass: seq<Class>)
    requires InRange(op, old_, new_) && Columns(left0, right0, leftClass0, rightClass0, done)
    ensures Columns(left, right, leftClass, rightClass, done + RowsOf(op, old_, new_))
  {
    left, right, leftClass, rightClass := left0, right0, leftClass0, rightClass0;
    var a, b := old_[op.i1..op.i2], new_[op.j1..op.j2];
    var size := match op.tag case Equal => |a| case Replace => Max(|a|, |b|) case Delete => |a| case Insert => |b|;
    ghost var rows := RowsOf(op, old_, new_);
    assert done + rows[..0] == done;
    hide Columns;
    for k := 0 to size
      invariant Columns(left, right, leftClass, rightClass, done + rows[..k])
    {
      var pair: Row;
      match op.tag {
        case Equal =>
          pair := Row(a[k], b[k], Context, Context);
        case Replace =>
          var l := if k < |a| then a[k] else "";
          var r := if k < |b| then b[k] else "";
          pair := Row(l, r, if l != "" then Changed else Context, if r != "" then Changed else Context);
        case Delete =>
          pair := Row(a[k], "", Removed, Context);
        case Insert =>
          pair := Row("", b[k], Context, Added);
      }
      assert pair == rows[k];
      assert done + rows[..k] + [pair] == done + rows[..k + 1];
      AppendPair(left, right, leftClass, rightClass, done + rows[..k], pair);
      left, right := left + [pair.left], right + [pair.right];
      leftClass, rightClass := leftClass + [pair.leftClass], rightClass + [pair.rightClass];
    }
    assert rows[..size] == rows;
  }

  // ------------------------------------------------------------------------------ no line is lost

  function NonBlank(lines: seq<string>): seq<string> {
    if lines == [] then []
    else NonBlank(lines[..|lines| - 1]) + if lines[|lines| - 1] == "" then [] else [lines[|lines| - 1]]
  }

  lemma {:induction false} NonBlankOfConcat(a: seq<string>, b: seq<string>)
    ensures NonBlank(a + b) == NonBlank(a) + NonBlank(b)
  {
    if b == [] {
      assert a + b == a;
    } else {
      assert (a + b)[..|a + b| - 1] == a + b[..|b| - 1];
      NonBlankOfConcat(a, b[..|b| - 1]);
    }
  }

  /** A column that holds a block followed by padding shows the non-blank lines of the block. */
  lemma {:induction false} PaddedColumn(column: seq<string>, block: seq<string>)
    requires |column| >= |block| && forall k :: 0 <= k < |column| ==> column[k] == Pad(block, k)
    ensures NonBlank(column) == NonBlank(block)
    decreases |column|
  {
    if |column| > |block| {
      PaddedColumn(column[..|column| - 1], block);
    } else {
      assert column == block;
    }
  }

  lemma BlockKeepsLines(op: OpCode, old_: seq<string>, new_: seq<string>)
    requires InRange(op, old_, new_)
    requires op.tag == Delete ==> op.j1 == op.j2
    requires op.tag == Insert ==> op.i1 == op.i2
    ensures var rows := RowsOf(op, old_, new_);
            && NonBlank(Lefts(rows)) == NonBlank(old_[op.i1..op.i2])
            && NonBlank(Rights(rows)) == NonBlank(new_[op.j1..op.j2])
            && Max(op.i2 - op.i1, op.j2 - op.j1) <= |rows| <= (op.i2 - op.i1) + (op.j2 - op.j1)
  {
    var rows := RowsOf(op, old_, new_);
    PaddedColumn(Lefts(rows), old_[op.i1..op.i2]);
    PaddedColumn(Rights(rows), new_[op.j1..op.j2]);
  }

  lemma {:induction false} TilesInRange(ops: seq<OpCode>, old_: seq<string>, new_: seq<string>, n: nat, m: nat)
    requires Tiles(ops, old_, new_, n, m)
    ensures forall i :: 0 <= i < |ops| ==> InRange(ops[i], old_, new_)
  {
    if ops != [] {
      var op := ops[|ops| - 1];
      assert |old_[op.i1..op.i2]| == op.i2 - op.i1 && |new_[op.j1..op.j2]| == op.j2 - op.j1;
      TilesInRange(ops[..|ops| - 1], old_, new_, op.i1, op.j1);
    }
  }

  lemma ColumnsOfConcat(a: seq<Row>, b: seq<Row>)
    ensures NonBlank(Lefts(a + b)) == NonBlank(Lefts(a)) + NonBlank(Lefts(b))
    ensures NonBlank(Rights(a + b)) == NonBlank(Rights(a)) + NonBlank(Rights(b))
  {
    SidesOfConcat(a, b);
    NonBlankOfConcat(Lefts(a), Lefts(b));
    NonBlankOfConcat(Rights(a), Rights(b));
  }

  lemma NonBlankOfSlice(lines: seq<string>, i: nat, n: nat)
    requires i <= n <= |lines|
    ensures NonBlank(lines[..n]) == NonBlank(lines[..i]) + NonBlank(lines[i..n])
  {
    assert lines[..n] == lines[..i] + lines[i..n];
    NonBlankOfConcat(lines[..i], lines[i..n]);
  }

  /** For every opcode list that tiles both texts, the non-blank left lines are the non-blank old lines
      in order, likewise on the right, and the number of rows is bounded both ways. */
  lemma {:induction false} NoLineIsLost(ops: seq<OpCode>, old_: seq<string>, new_: seq<string>, n: nat, m: nat)
    requires Tiles(ops, old_, new_, n, m) && n <= |old_| && m <= |new_|
    requires forall i :: 0 <= i < |ops| ==> InRange(ops[i], old_, new_)
    ensures var rows := Aligned(ops, old_, new_);
            && NonBlank(Lefts(rows)) == NonBlank(old_[..n])
            && NonBlank(Rights(rows)) == NonBlank(new_[..m])
            && Max(n, m) <= |rows| <= n + m
  {
    if ops == [] {
      assert Lefts([]) == [] && Rights([]) == [];
    } else {
      hide NonBlank, Lefts, Rights, RowsOf;
      var op, init := ops[|ops| - 1], ops[..|ops| - 1];
      NoLineIsLost(init, old_, new_, op.i1, op.j1);
      BlockKeepsLines(op, old_, new_);
      ColumnsOfConcat(Aligned(init, old_, new_), RowsOf(op, old_, new_));
      NonBlankOfSlice(old_, op.i1, n);
      NonBlankOfSlice(new_, op.j1, m);
    }
  }

  /** What the classes of a row say about its lines. */
  predicate Sound(r: Row) {
    && (r.leftClass == Context && r.rightClass == Context ==> r.left == r.right || r.left == "" || r.right == "")
    && (r.leftClass == Removed ==> r.right == "" && r.rightClass == Context)
    && (r.rightClass == Added ==> r.left == "" && r.leftClass == Context)
    && (r.leftClass == Changed ==>
        r.left != "" && r.rightClass in {Changed, Context} && (r.rightClass == Context ==> r.right == ""))
    && (r.rightClass == Changed ==>
        r.right != "" && r.leftClass in {Changed, Context} && (r.leftClass == Context ==> r.left == ""))
    && r.leftClass != Added && r.rightClass != Removed
  }

  /** Two non-blank lines shown as context are the same line. */
  lemma {:induction false} ClassesAreSound(ops: seq<OpCode>, old_: seq<string>, new_: seq<string>, n: nat, m: nat)
    requires Tiles(ops, old_, new_, n, m)
    requires forall i :: 0 <= i < |ops| ==> InRange(ops[i], old_, new_)
    ensures forall k :: 0 <= k < |Aligned(ops, old_, new_)| ==> Sound(Aligned(ops, old_, new_)[k])
  {
    if ops != [] {
      var op := ops[|ops| - 1];
      ClassesAreSound(ops[..|ops| - 1], old_, new_, op.i1, op.j1);
    }
  }

  // ------------------------------------------------------------------------ which block a row shows

  /** How many rows a block takes. */
  function BlockSize(op: OpCode): int {
    var removed, added := op.i2 - op.i1, op.j2 - op.j1;
    if op.tag == Insert then added else if op.tag == Replace && removed < added then added else removed
  }

  /** The row at which block `n` starts: the blocks before it follow one another. */
  function BlockStart(ops: seq<OpCode>, n: nat): int
    requires n <= |ops|
  {
    if n == 0 then 0 else BlockStart(ops, n - 1) + BlockSize(ops[n - 1])
  }

  /** Side `line` of a replaced block: its `k`-th line marked as changed, or blank context beyond its end. */
  predicate ShowsReplaced(lines: seq<string>, from: nat, to: nat, k: nat, line: string, class_: Class) {
    if from + k < to && from + k < |lines| then line == lines[from + k] && class_ == if line == "" then Context
        else Changed
    else line == "" && class_ == Context
  }

  /** Row `r` is the `k`-th of the block: the line of an equal block on both sides as context, that of a
      deletion as removed on the left, that of an insertion as added on the right, those of a replacement
      as changed. */
  predicate Shows(op: OpCode, old_: seq<string>, new_: seq<string>, k: nat, r: Row) {
    match op.tag
    case Equal =>
      && op.i1 + k < |old_| && r.left == r.right == old_[op.i1 + k]
      && r.leftClass == Context && r.rightClass == Context
    case Delete =>
      op.i1 + k < |old_| && r == Row(old_[op.i1 + k], "", Removed, Context)
    case Insert =>
      op.j1 + k < |new_| && r == Row("", new_[op.j1 + k], Context, Added)
    case Replace =>
      && ShowsReplaced(old_, op.i1, op.i2, k, r.left, r.leftClass)
      && ShowsReplaced(new_, op.j1, op.j2, k, r.right, r.rightClass)
  }

  lemma BlockRows(op: OpCode, old_: seq<string>, new_: seq<string>)
    requires InRange(op, old_, new_) && (op.tag == Equal ==> old_[op.i1..op.i2] == new_[op.j1..op.j2])
    ensures |RowsOf(op, old_, new_)| == BlockSize(op)
    ensures forall k :: 0 <= k < BlockSize(op) ==> Shows(op, old_, new_, k, RowsOf(op, old_, new_)[k])
  {
    var a, b := old_[op.i1..op.i2], new_[op.j1..op.j2];
    assert forall k :: 0 <= k < |a| ==> a[k] == old_[op.i1 + k];
    assert forall k :: 0 <= k < |b| ==> b[k] == new_[op.j1 + k];
  }

  lemma {:induction false} StartOfPrefix(ops: seq<OpCode>, n: nat)
    requires n < |ops|
    ensures BlockStart(ops[..|ops| - 1], n) == BlockStart(ops, n)
  {
    if n > 0 {
      StartOfPrefix(ops, n - 1);
    }
  }

  /** The `k`-th row of block `n` is where the blocks before it end, and shows that block. */
  lemma {:induction false} RowShowsBlock(ops: seq<OpCode>, old_: seq<string>, new_: seq<string>, i: nat, j: nat, n: nat,
                                         k: nat)
    requires Tiles(ops, old_, new_, i, j)
    requires forall m :: 0 <= m < |ops| ==> InRange(ops[m], old_, new_)
    requires n < |ops| && k < BlockSize(ops[n])
    ensures 0 <= BlockStart(ops, n) + k < |Aligned(ops, old_, new_)|
    ensures Shows(ops[n], old_, new_, k, Aligned(ops, old_, new_)[BlockStart(ops, n) + k])
  {
    hide RowsOf, Shows;
    var last, op := |ops| - 1, ops[|ops| - 1];
    RowCount(ops[..last], old_, new_, op.i1, op.j1);
    BlockRows(op, old_, new_);
    StartOfPrefix(ops, n);
    if n < last {
      RowShowsBlock(ops[..last], old_, new_, op.i1, op.j1, n, k);
    }
  }

  lemma {:induction false} RowCount(ops: seq<OpCode>, old_: seq<string>, new_: seq<string>, i: nat, j: nat)
    requires Tiles(ops, old_, new_, i, j)
    requires forall m :: 0 <= m < |ops| ==> InRange(ops[m], old_, new_)
    ensures |Aligned(ops, old_, new_)| == BlockStart(ops, |ops|)
  {
    if ops != [] {
      hide RowsOf;
      var last, op := |ops| - 1, ops[|ops| - 1];
      RowCount(ops[..last], old_, new_, op.i1, op.j1);
      BlockRows(op, old_, new_);
      StartOfPrefix(ops, last);
    }
  }

  /** Every row lies in one of the blocks. */
  lemma {:induction false} BlockOfRow(ops: seq<OpCode>, m: nat, r: nat) returns (n: nat, k: nat)
    requires m <= |ops| && r < BlockStart(ops, m) && forall i :: 0 <= i < |ops| ==> BlockSize(ops[i]) >= 0
    ensures n < m && k < BlockSize(ops[n]) && r == BlockStart(ops, n) + k
  {
    if r >= BlockStart(ops, m - 1) {
      n, k := m - 1, r - BlockStart(ops, m - 1);
    } else {
      n, k := BlockOfRow(ops, m - 1, r);
    }
  }

  /** The `k`-th row of block `n` is where the blocks before it end, and shows that block. */
  ghost predicate ShownAt(ops: seq<OpCode>, old_: seq<string>, new_: seq<string>, rows: seq<Row>, n: nat, k: nat)
    requires n < |ops|
  {
    var r := BlockStart(ops, n) + k;
    0 <= r < |rows| && Shows(ops[n], old_, new_, k, rows[r])
  }

  /** The rows are those of the blocks, block after block. */
  ghost predicate ShowsBlocks(ops: seq<OpCode>, old_: seq<string>, new_: seq<string>, rows: seq<Row>) {
    && |rows| == BlockStart(ops, |ops|)
    && forall n: nat, k: nat :: n < |ops| && k < BlockSize(ops[n]) ==> ShownAt(ops, old_, new_, rows, n, k)
  }

  /** Row `r` is a row of block `n`, and its classes are of that kind of block. */
  ghost predicate ComesFrom(ops: seq<OpCode>, old_: seq<string>, new_: seq<string>, rows: seq<Row>, r: nat, n: nat,
      k: nat)
    requires n < |ops| && r < |rows|
  {
    && k < BlockSize(ops[n]) && r == BlockStart(ops, n) + k && Shows(ops[n], old_, new_, k, rows[r])
    && (rows[r].leftClass == Changed || rows[r].rightClass == Changed ==> ops[n].tag == Replace)
    && (rows[r].leftClass == Removed ==> ops[n].tag == Delete)
    && (rows[r].rightClass == Added ==> ops[n].tag == Insert)
  }

  /** A row whose class is not context shows a line of a block that says so; texts without such blocks have
      context rows only. */
  lemma ClassComesFromBlock(ops: seq<OpCode>, old_: seq<string>, new_: seq<string>, rows: seq<Row>, r: nat)
    requires ShowsBlocks(ops, old_, new_, rows) && r < |rows|
    requires forall i :: 0 <= i < |ops| ==> BlockSize(ops[i]) >= 0
    ensures exists n: nat, k: nat :: n < |ops| && ComesFrom(ops, old_, new_, rows, r, n, k)
    ensures (forall i :: 0 <= i < |ops| ==> ops[i].tag == Equal) ==>
              rows[r].leftClass == Context && rows[r].rightClass == Context && rows[r].left == rows[r].right
  {
    var n, k := BlockOfRow(ops, |ops|, r);
    assert ShownAt(ops, old_, new_, rows, n, k);
    assert ComesFrom(ops, old_, new_, rows, r, n, k);
  }

  lemma EqualBlock(op: OpCode, old_: seq<string>, new_: seq<string>)
    requires InRange(op, old_, new_) && op.tag == Equal
    ensures Lefts(RowsOf(op, old_, new_)) == old_[op.i1..op.i2] && Rights(RowsOf(op, old_, new_)) == new_[op.j1..op.j2]
  {
  }

  lemma SidesOfConcat(a: seq<Row>, b: seq<Row>)
    ensures Lefts(a + b) == Lefts(a) + Lefts(b) && Rights(a + b) == Rights(a) + Rights(b)
  {
  }

  /** Texts without differences are shown as they are, side by side. */
  lemma {:induction false} EqualTexts(ops: seq<OpCode>, old_: seq<string>, new_: seq<string>, i: nat, j: nat)
    requires Tiles(ops, old_, new_, i, j) && i <= |old_| && j <= |new_|
    requires forall m :: 0 <= m < |ops| ==> InRange(ops[m], old_, new_) && ops[m].tag == Equal
    ensures Lefts(Aligned(ops, old_, new_)) == old_[..i] && Rights(Aligned(ops, old_, new_)) == new_[..j]
    ensures i == j && old_[..i] == new_[..j]
  {
    if ops != [] {
      hide RowsOf, Lefts, Rights;
      var op, init := ops[|ops| - 1], ops[..|ops| - 1];
      EqualTexts(init, old_, new_, op.i1, op.j1);
      EqualBlock(op, old_, new_);
      SidesOfConcat(Aligned(init, old_, new_), RowsOf(op, old_, new_));
      assert old_[..i] == old_[..op.i1] + old_[op.i1..i] && new_[..j] == new_[..op.j1] + new_[op.j1..j];
    } else {
      assert Lefts([]) == [] && Rights([]) == [];
    }
  }

  /** The rows that four lists make. */
  function Zip(left: seq<string>, right: seq<string>, leftClass: seq<Class>, rightClass: seq<Class>): seq<Row>
    requires |left| == |right| == |leftClass| == |rightClass|
  {
    seq(|left|, k requires 0 <= k < |left| => Row(left[k], right[k], leftClass[k], rightClass[k]))
  }

  lemma EqualsAreContext(ops: seq<OpCode>, old_: seq<string>, new_: seq<string>, rows: seq<Row>)
    requires ShowsBlocks(ops, old_, new_, rows)
    requires forall i :: 0 <= i < |ops| ==> InRange(ops[i], old_, new_) && ops[i].tag == Equal
    ensures forall r :: 0 <= r < |rows| ==> rows[r].leftClass == rows[r].rightClass == Context
  {
    assert forall i :: 0 <= i < |ops| ==> BlockSize(ops[i]) >= 0;
    hide ShowsBlocks, InRange, BlockSize;
    forall r | 0 <= r < |rows|
      ensures rows[r].leftClass == rows[r].rightClass == Context
    {
      ClassComesFromBlock(ops, old_, new_, rows, r);
    }
  }

  lemma AlignedShowsBlocks(ops: seq<OpCode>, old_: seq<string>, new_: seq<string>, i: nat, j: nat)
    requires Tiles(ops, old_, new_, i, j)
    requires forall m :: 0 <= m < |ops| ==> InRange(ops[m], old_, new_)
    ensures ShowsBlocks(ops, old_, new_, Aligned(ops, old_, new_))
  {
    hide Aligned, Shows, BlockSize, Tiles;
    RowCount(ops, old_, new_, i, j);
    forall n: nat, k: nat | n < |ops| && k < BlockSize(ops[n])
      ensures ShownAt(ops, old_, new_, Aligned(ops, old_, new_), n, k)
    {
      RowShowsBlock(ops, old_, new_, i, j, n, k);
    }
  }

  /** `generate_visual_diff`, given the opcodes of the matcher. */
  method GenerateVisualDiff(old_: seq<string>, new_: seq<string>, ops: seq<OpCode>)
    returns (left: seq<string>, right: seq<string>, leftClass: seq<Class>, rightClass: seq<Class>)
    requires Tiles(ops, old_, new_, |old_|, |new_|)
    ensures |left| == |right| == |leftClass| == |rightClass|
    ensures NonBlank(left) == NonBlank(old_) && NonBlank(right) == NonBlank(new_)
    ensures Max(|old_|, |new_|) <= |left| <= |old_| + |new_|
    ensures forall k :: 0 <= k < |left| ==> Sound(Row(left[k], right[k], leftClass[k], rightClass[k]))
    ensures ShowsBlocks(ops, old_, new_, Zip(left, right, leftClass, rightClass))
    ensures (forall i :: 0 <= i < |ops| ==> ops[i].tag == Equal) ==>
              left == right == old_ == new_
    ensures (forall i :: 0 <= i < |ops| ==> ops[i].tag == Equal) ==>
              forall k :: 0 <= k < |left| ==> leftClass[k] == rightClass[k] == Context
    ensures (forall i :: 0 <= i < |ops| ==> InRange(ops[i], old_, new_))
            && Columns(left, right, leftClass, rightClass, Aligned(ops, old_, new_))
  {
    hide *;
    AlignmentLaws(old_, new_, ops);
    left, right, leftClass, rightClass := AlignBlocks(old_, new_, ops);
    ColumnsOf(left, right, leftClass, rightClass, Aligned(ops, old_, new_));
  }

  lemma AlignmentLaws(old_: seq<string>, new_: seq<string>, ops: seq<OpCode>)
    requires Tiles(ops, old_, new_, |old_|, |new_|)
    ensures forall i :: 0 <= i < |ops| ==> InRange(ops[i], old_, new_)
    ensures var rows := Aligned(ops, old_, new_);
            && NonBlank(Lefts(rows)) == NonBlank(old_) && NonBlank(Rights(rows)) == NonBlank(new_)
            && Max(|old_|, |new_|) <= |rows| <= |old_| + |new_|
            && (forall k :: 0 <= k < |rows| ==> Sound(rows[k]))
            && ShowsBlocks(ops, old_, new_, rows)
    ensures (forall i :: 0 <= i < |ops| ==> ops[i].tag == Equal) ==>
              var rows := Aligned(ops, old_, new_);
              && Lefts(rows) == Rights(rows) == old_ == new_
              && forall k :: 0 <= k < |rows| ==> rows[k].leftClass == rows[k].rightClass == Context
  {
    TilesInRange(ops, old_, new_, |old_|, |new_|);
    hide Aligned, Tiles, NonBlank, Sound, InRange, ShowsBlocks, Lefts, Rights;
    assert old_[..|old_|] == old_ && new_[..|new_|] == new_;
    NoLineIsLost(ops, old_, new_, |old_|, |new_|);
    ClassesAreSound(ops, old_, new_, |old_|, |new_|);
    AlignedShowsBlocks(ops, old_, new_, |old_|, |new_|);
    if forall i :: 0 <= i < |ops| ==> ops[i].tag == Equal {
      EqualTexts(ops, old_, new_, |old_|, |new_|);
      EqualsAreContext(ops, old_, new_, Aligned(ops, old_, new_));
    }
  }

  lemma ColumnsOf(left: seq<string>, right: seq<string>, leftClass: seq<Class>, rightClass: seq<Class>, rows: seq<Row>)
    requires Columns(left, right, leftClass, rightClass, rows)
    ensures |left| == |right| == |leftClass| == |rightClass| == |rows|
    ensures left == Lefts(rows) && right == Rights(rows) && Zip(left, right, leftClass, rightClass) == rows
    ensures forall k :: 0 <= k < |rows| ==> rows[k] == Row(left[k], right[k], leftClass[k], rightClass[k])
  {
  }
}
