/** The Matrix class of Matrix.java: a grid of complex numbers (the root
    Complex.java draft) with its row count m and column count n.

    Java arrays become sequences and the methods become functions that
    return the new matrix or the exception thrown. Every constructor sets m
    to the number of rows and n to the length of the first row; nothing
    checks that the other rows have n cells.
 */
module Matrices {
  import opened Wrappers
  import opened ComplexNumbers
  import ComplexText
  import Decimal
  import ImagPattern
  import opened Tokenizer

  /** The private fields mtx, m and n. */
  datatype Matrix = Matrix(mtx: seq<seq<Complex>>, m: nat, n: nat)

  /** What every Matrix the class builds satisfies: m counts the rows, n is
      the length of the first row, and no row is empty (readMatrix reads at
      least one token per row, and add and multiply(double) build m × n
      arrays of such a matrix). */
  predicate Valid(a: Matrix) {
    && a.m == |a.mtx| && a.m >= 1
    && a.n == |a.mtx[0]|
    && forall i :: 0 <= i < |a.mtx| ==> |a.mtx[i]| >= 1
  }

  /** Every row has exactly n cells. */
  predicate Rectangular(a: Matrix) {
    && a.m == |a.mtx| && a.m >= 1 && a.n >= 1
    && forall i :: 0 <= i < |a.mtx| ==> |a.mtx[i]| == a.n
  }

  lemma {:induction false} RectangularValid(a: Matrix)
    requires Rectangular(a)
    ensures Valid(a)
  {
    assert |a.mtx[0]| == a.n;
  }

  /** The loops of add and multiply(double) read cells [0, m) × [0, n):
      they find every one of them. */
  predicate Covers(a: Matrix) {
    a.m <= |a.mtx| && forall i :: 0 <= i < a.m ==> a.n <= |a.mtx[i]|
  }

  /** The constructor Matrix(Complex[][]): m is the number of rows and n
      the length of the first, which an empty array does not have. */
  function FromArray(g: seq<seq<Complex>>): (r: Result<Matrix>)
    ensures r.Ok? <==> |g| >= 1
    ensures r.Err? ==> r.error == ArrayIndexOutOfBounds
    ensures r.Ok? ==> r.value.mtx == g && r.value.m == |g| && r.value.n == |g[0]|
  {
    if |g| == 0 then Err(ArrayIndexOutOfBounds) else Ok(Matrix(g, |g|, |g[0]|))
  }

  // ---- getValue / setValue ----

  /** getValue(row, column). The guard rejects indices at or past m and n
      with IndexOutOfBoundsException; a negative index, or a column past
      the end of a short row, fails in the array access instead. */
  function GetValue(a: Matrix, row: int, column: int): (r: Result<Complex>)
    ensures row >= a.m || column >= a.n ==> r == Err(IndexOutOfBounds)
    ensures r.Ok? <==> 0 <= row < a.m && 0 <= column < a.n && row < |a.mtx| && column < |a.mtx[row]|
    ensures r.Ok? ==> r.value == a.mtx[row][column]
    ensures r.Err? ==> r.error == IndexOutOfBounds || r.error == ArrayIndexOutOfBounds
    ensures row < a.m && column < a.n && r.Err? ==> r.error == ArrayIndexOutOfBounds
  {
    if row >= a.m || column >= a.n then Err(IndexOutOfBounds)
    else if row < 0 || column < 0 || row >= |a.mtx| || column >= |a.mtx[row]| then Err(ArrayIndexOutOfBounds)
    else Ok(a.mtx[row][column])
  }

  /** On a rectangular matrix the only failures are the guard's and a
      negative index. */
  lemma {:induction false} GetValueRectangular(a: Matrix, row: int, column: int)
    requires Rectangular(a)
    ensures GetValue(a, row, column).Ok? <==> 0 <= row < a.m && 0 <= column < a.n
    ensures row < a.m && column < a.n && (row < 0 || column < 0) ==> GetValue(a, row, column) == Err(ArrayIndexOutOfBounds)
  {
  }

  /** setValue(value, row, column): the same checks as getValue, then the
      one cell is replaced. */
  function SetValue(a: Matrix, value: Complex, row: int, column: int): (r: Result<Matrix>)
    ensures r.Ok? <==> GetValue(a, row, column).Ok?
    ensures r.Err? ==> r == Err(GetValue(a, row, column).error)
    ensures r.Ok? ==> r.value.m == a.m && r.value.n == a.n && |r.value.mtx| == |a.mtx|
    ensures r.Ok? ==> forall i :: 0 <= i < |a.mtx| ==> |r.value.mtx[i]| == |a.mtx[i]|
    ensures r.Ok? ==> r.value.mtx[row][column] == value
    ensures r.Ok? ==> forall i, j :: 0 <= i < |a.mtx| && 0 <= j < |a.mtx[i]| && (i != row || j != column) ==>
      r.value.mtx[i][j] == a.mtx[i][j]
  {
    if row >= a.m || column >= a.n then Err(IndexOutOfBounds)
    else if row < 0 || column < 0 || row >= |a.mtx| || column >= |a.mtx[row]| then Err(ArrayIndexOutOfBounds)
    else Ok(a.(mtx := a.mtx[row := a.mtx[row][column := value]]))
  }

  /** Reading after writing: the written cell holds the new value, every
      other cell reads as before, and the invariants are kept. */
  lemma {:induction false} GetAfterSet(a: Matrix, value: Complex, row: int, column: int, i: int, j: int)
    requires SetValue(a, value, row, column).Ok?
    ensures var b := SetValue(a, value, row, column).value;
      && GetValue(b, i, j) == (if i == row && j == column then Ok(value) else GetValue(a, i, j))
      && (Valid(a) ==> Valid(b))
      && (Rectangular(a) ==> Rectangular(b))
  {
    var b := SetValue(a, value, row, column).value;
    if Valid(a) {
      assert |b.mtx[0]| == |a.mtx[0]|;
    }
  }

  // ---- add / multiply(double) ----

  /** The m × n grid whose cell (i, j) is f of the cells (i, j) of x and y. */
  function Cellwise(x: seq<seq<Complex>>, y: seq<seq<Complex>>, m: nat, n: nat, f: (Complex, Complex) -> Complex): (g: seq<seq<Complex>>)
    requires m <= |x| && m <= |y|
    requires forall i :: 0 <= i < m ==> n <= |x[i]| && n <= |y[i]|
    ensures |g| == m && forall i :: 0 <= i < m ==> |g[i]| == n
    ensures forall i, j :: 0 <= i < m && 0 <= j < n ==> g[i][j] == f(x[i][j], y[i][j])
  {
    seq(m, i requires 0 <= i < m => seq(n, j requires 0 <= j < n => f(x[i][j], y[i][j])))
  }

  /** add(Matrix). Unequal m or n is a MismatchDimensionException. The loop
      then reads cells [0, m) × [0, n) of both matrices, and the result has
      those counts. */
  function Add(a: Matrix, b: Matrix): (r: Result<Matrix>)
    ensures a.m != b.m || a.n != b.n ==> r == Err(MismatchDimension)
    ensures r.Ok? <==> a.m == b.m && a.n == b.n && a.m >= 1 && Covers(a) && Covers(b)
    ensures r.Err? ==> r.error == MismatchDimension || r.error == ArrayIndexOutOfBounds
    ensures a.m == b.m && a.n == b.n && r.Err? ==> r.error == ArrayIndexOutOfBounds
    ensures r.Ok? ==> r.value.m == a.m && r.value.n == a.n && |r.value.mtx| == a.m
    ensures r.Ok? ==> forall i :: 0 <= i < a.m ==> |r.value.mtx[i]| == a.n
    ensures r.Ok? ==> forall i, j :: 0 <= i < a.m && 0 <= j < a.n ==>
      r.value.mtx[i][j] == ComplexNumbers.Add(a.mtx[i][j], b.mtx[i][j])
  {
    if a.m != b.m || a.n != b.n then Err(MismatchDimension)
    else if !Covers(a) || !Covers(b) then Err(ArrayIndexOutOfBounds)
    else FromArray(Cellwise(a.mtx, b.mtx, a.m, a.n, ComplexNumbers.Add))
  }

  /** Two rectangular matrices of one shape always add, to a rectangular
      matrix, and the order does not matter. */
  lemma {:induction false} AddRectangular(a: Matrix, b: Matrix)
    requires Rectangular(a) && Rectangular(b) && a.m == b.m && a.n == b.n
    ensures Add(a, b).Ok? && Rectangular(Add(a, b).value)
    ensures Add(a, b) == Add(b, a)
  {
    var p, q := Add(a, b).value, Add(b, a).value;
    forall i | 0 <= i < a.m
      ensures p.mtx[i] == q.mtx[i]
    {
      forall j | 0 <= j < a.n
        ensures p.mtx[i][j] == q.mtx[i][j]
      {
        AddCommutes(a.mtx[i][j], b.mtx[i][j]);
      }
    }
    assert p == q;
  }

  /** multiply(double): every cell scaled. It fails only where a row is
      shorter than n. */
  function MultiplyScalar(a: Matrix, s: real): (r: Result<Matrix>)
    ensures r.Ok? <==> a.m >= 1 && Covers(a)
    ensures r.Err? ==> r.error == ArrayIndexOutOfBounds
    ensures r.Ok? ==> r.value.m == a.m && r.value.n == a.n && |r.value.mtx| == a.m
    ensures r.Ok? ==> forall i :: 0 <= i < a.m ==> |r.value.mtx[i]| == a.n
    ensures r.Ok? ==> forall i, j :: 0 <= i < a.m && 0 <= j < a.n ==>
      r.value.mtx[i][j] == MultiplyReal(a.mtx[i][j], s)
  {
    if !Covers(a) then Err(ArrayIndexOutOfBounds)
    else FromArray(Cellwise(a.mtx, a.mtx, a.m, a.n, (x, y) => MultiplyReal(x, s)))
  }

  /** Scaling a rectangular matrix never fails, scaling by 1 changes
      nothing, and scaling twice is scaling by the product. */
  lemma {:induction false} ScaleLaws(a: Matrix, s: real, t: real)
    requires Rectangular(a)
    ensures MultiplyScalar(a, s).Ok? && Rectangular(MultiplyScalar(a, s).value)
    ensures MultiplyScalar(a, 1.0) == Ok(a)
    ensures MultiplyScalar(MultiplyScalar(a, s).value, t) == MultiplyScalar(a, s * t)
  {
    var one := MultiplyScalar(a, 1.0).value;
    forall i | 0 <= i < a.m
      ensures one.mtx[i] == a.mtx[i]
    {
      assert forall j :: 0 <= j < a.n ==> one.mtx[i][j] == a.mtx[i][j];
    }
    assert one == a;
    var p := MultiplyScalar(a, s).value;
    var q, u := MultiplyScalar(p, t).value, MultiplyScalar(a, s * t).value;
    forall i | 0 <= i < a.m
      ensures q.mtx[i] == u.mtx[i]
    {
      forall j | 0 <= j < a.n
        ensures q.mtx[i][j] == u.mtx[i][j]
      {
        var c := a.mtx[i][j];
        assert (c.re * s) * t == c.re * (s * t) && (c.im * s) * t == c.im * (s * t);
      }
    }
    assert q == u;
  }

  // ---- multiply(Matrix) ----

  /** multiply(Matrix) as written: the guard, then a this.n × multand.m
      array that the unfinished loop never fills. The model keeps the shape
      of that array; wrapping it reads its first row, which fails only if
      this.n is 0. */
  function MultiplyStub(a: Matrix, b: Matrix): (r: Result<(nat, nat)>)
    ensures a.n != b.m ==> r == Err(MismatchDimension)
    ensures r.Ok? ==> r.value == (a.n, b.m)
  {
    if a.n != b.m then Err(MismatchDimension)
    else if a.n == 0 then Err(ArrayIndexOutOfBounds)
    else Ok((a.n, b.m))
  }

  /** Σ x[l]·y[l], accumulated from ZERO in index order. */
  function Dot(x: seq<Complex>, y: seq<Complex>): Complex
    requires |x| == |y|
  {
    if |x| == 0 then ZERO
    else ComplexNumbers.Add(Dot(x[..|x| - 1], y[..|y| - 1]), Multiply(x[|x| - 1], y[|y| - 1]))
  }

  /** Column j of a rectangular matrix. */
  function Column(b: Matrix, j: nat): (c: seq<Complex>)
    requires Rectangular(b) && j < b.n
    ensures |c| == b.m && forall l :: 0 <= l < b.m ==> c[l] == b.mtx[l][j]
  {
    seq(b.m, l requires 0 <= l < b.m => b.mtx[l][j])
  }

  /** The product the method is meant to compute: this.m × multand.n,
      cell (i, j) the sum over k of a[i][k]·b[k][j]. */
  function Product(a: Matrix, b: Matrix): (r: Result<Matrix>)
    requires Rectangular(a) && Rectangular(b)
    ensures a.n != b.m <==> r == Err(MismatchDimension)
    ensures r.Ok? ==> Rectangular(r.value) && r.value.m == a.m && r.value.n == b.n
    ensures r.Ok? ==> forall i, j :: 0 <= i < a.m && 0 <= j < b.n ==>
      r.value.mtx[i][j] == Dot(a.mtx[i], Column(b, j))
  {
    if a.n != b.m then Err(MismatchDimension)
    else
      var g := seq(a.m, i requires 0 <= i < a.m => seq(b.n, j requires 0 <= j < b.n => Dot(a.mtx[i], Column(b, j))));
      Ok(Matrix(g, a.m, b.n))
  }

  /** The size × size matrix with ONE on the diagonal and ZERO elsewhere. */
  function Identity(size: nat): (r: Matrix)
    requires size >= 1
    ensures Rectangular(r) && r.m == size && r.n == size
  {
    Matrix(seq(size, i requires 0 <= i < size => Unit(size, i)), size, size)
  }

  /** The i-th unit row of length size. */
  function Unit(size: nat, i: nat): (e: seq<Complex>)
    ensures |e| == size && forall l :: 0 <= l < size ==> e[l] == if l == i then ONE else ZERO
  {
    seq(size, l requires 0 <= l < size => if l == i then ONE else ZERO)
  }

  /** Summing against a unit row picks out one entry. */
  lemma {:induction false} DotUnitLeft(e: seq<Complex>, y: seq<Complex>, i: nat)
    requires |e| == |y| && i < |y|
    requires forall l :: 0 <= l < |e| ==> e[l] == if l == i then ONE else ZERO
    ensures Dot(e, y) == y[i]
  {
    DotUnitPrefix(e, y, i, |y|);
    assert e[..|y|] == e && y[..|y|] == y;
  }

  lemma {:induction false} DotUnitPrefix(e: seq<Complex>, y: seq<Complex>, i: nat, k: nat)
    requires |e| == |y| && k <= |y|
    requires forall l :: 0 <= l < |e| ==> e[l] == if l == i then ONE else ZERO
    ensures Dot(e[..k], y[..k]) == if i < k then y[i] else ZERO
  {
    if k > 0 {
      var prev := Dot(e[..k - 1], y[..k - 1]);
      DotStep(e, y, k);
      DotUnitPrefix(e, y, i, k - 1);
      MultiplyIdentity(y[k - 1]);
      if k - 1 == i {
        assert prev == ZERO && Multiply(e[k - 1], y[k - 1]) == y[i];
        AddCommutes(y[i], ZERO);
      } else {
        assert Multiply(e[k - 1], y[k - 1]) == ZERO;
        AddCommutes(prev, ZERO);
      }
    }
  }

  /** One more term of a prefix sum. */
  lemma {:induction false} DotStep(x: seq<Complex>, y: seq<Complex>, k: nat)
    requires |x| == |y| && 0 < k <= |y|
    ensures Dot(x[..k], y[..k]) == ComplexNumbers.Add(Dot(x[..k - 1], y[..k - 1]), Multiply(x[k - 1], y[k - 1]))
  {
    assert x[..k][..k - 1] == x[..k - 1] && y[..k][..k - 1] == y[..k - 1];
    assert x[..k][k - 1] == x[k - 1] && y[..k][k - 1] == y[k - 1];
  }

  lemma {:induction false} DotUnitRight(x: seq<Complex>, e: seq<Complex>, j: nat)
    requires |x| == |e| && j < |x|
    requires forall l :: 0 <= l < |e| ==> e[l] == if l == j then ONE else ZERO
    ensures Dot(x, e) == x[j]
  {
    DotSymmetric(x, e);
    DotUnitLeft(e, x, j);
  }

  lemma {:induction false} DotSymmetric(x: seq<Complex>, y: seq<Complex>)
    requires |x| == |y|
    ensures Dot(x, y) == Dot(y, x)
    decreases |x|
  {
    if |x| > 0 {
      DotSymmetric(x[..|x| - 1], y[..|y| - 1]);
      MultiplyCommutes(x[|x| - 1], y[|y| - 1]);
    }
  }

  /** The identity is neutral on both sides of the product. */
  lemma {:induction false} ProductIdentity(a: Matrix)
    requires Rectangular(a)
    ensures Product(Identity(a.m), a) == Ok(a)
    ensures Product(a, Identity(a.n)) == Ok(a)
  {
    IdentityLeft(a);
    IdentityRight(a);
  }

  lemma {:induction false} IdentityLeft(a: Matrix)
    requires Rectangular(a)
    ensures Product(Identity(a.m), a) == Ok(a)
  {
    var e := Identity(a.m);
    var p := Product(e, a).value;
    forall i | 0 <= i < a.m
      ensures p.mtx[i] == a.mtx[i]
    {
      forall j | 0 <= j < a.n
        ensures p.mtx[i][j] == a.mtx[i][j]
      {
        DotUnitLeft(e.mtx[i], Column(a, j), i);
      }
    }
    assert p.mtx == a.mtx;
  }

  lemma {:induction false} IdentityRight(a: Matrix)
    requires Rectangular(a)
    ensures Product(a, Identity(a.n)) == Ok(a)
  {
    var e := Identity(a.n);
    var p := Product(a, e).value;
    forall i | 0 <= i < a.m
      ensures p.mtx[i] == a.mtx[i]
    {
      forall j | 0 <= j < a.n
        ensures p.mtx[i][j] == a.mtx[i][j]
      {
        var c := Column(e, j);
        assert forall l :: 0 <= l < |c| ==> c[l] == e.mtx[l][j];
        DotUnitRight(a.mtx[i], c, j);
      }
    }
    assert p.mtx == a.mtx;
  }

  /** The stub applies the same guard as the product, but the array it
      returns has the product's shape only for square factors of one
      size. */
  lemma {:induction false} StubShape(a: Matrix, b: Matrix)
    requires Rectangular(a) && Rectangular(b)
    ensures MultiplyStub(a, b).Err? <==> Product(a, b).Err?
    ensures Product(a, b).Ok? ==>
      (MultiplyStub(a, b) == Ok((Product(a, b).value.m, Product(a, b).value.n)) <==> a.m == a.n && b.m == b.n)
  {
  }

  /** A 2 × 3 matrix times a 3 × 4 matrix: the product is 2 × 4, the stub
      builds 3 × 3. */
  lemma StubShapeExample()
    ensures var a := Matrix(seq(2, i => seq(3, j => ZERO)), 2, 3);
      var b := Matrix(seq(3, i => seq(4, j => ZERO)), 3, 4);
      && Rectangular(a) && Rectangular(b)
      && MultiplyStub(a, b) == Ok((3, 3))
      && Product(a, b).Ok? && Product(a, b).value.m == 2 && Product(a, b).value.n == 4
  {
    var a := Matrix(seq(2, i => seq(3, j => ZERO)), 2, 3);
    var b := Matrix(seq(3, i => seq(4, j => ZERO)), 3, 4);
    assert Rectangular(a) && Rectangular(b);
  }

  // ---- readNums / readMatrix ----

  /** Each text through `parse`, in order, the first failure thrown: the
      do-while of readNums over the tokens and the while of readMatrix over
      the lines. */
  function ParseAll<T>(parse: string -> Result<T>, ts: seq<string>): (r: Result<seq<T>>)
    ensures r.Ok? <==> forall k :: 0 <= k < |ts| ==> parse(ts[k]).Ok?
    ensures r.Ok? ==> |r.value| == |ts| && forall k :: 0 <= k < |ts| ==> parse(ts[k]) == Ok(r.value[k])
    ensures r.Err? ==> exists k :: 0 <= k < |ts| && parse(ts[k]) == Err(r.error) && forall l :: 0 <= l < k ==> parse(ts[l]).Ok?
  {
    if |ts| == 0 then Ok([])
    else
      var x :- parse(ts[0]);
      var rest :- ParseAll(parse, ts[1..]);
      Ok([x] + rest)
  }

  /** Complex.parseComplex of a draft on one token. */
  function Parser(pat: ImagPattern.Pattern): string -> Result<Complex> {
    t => ComplexText.ParseComplex(pat, Some(t))
  }

  /** readNums(line): a Scanner over the line; the first next() throws
      NoSuchElementException when the line holds no token, and each token
      goes through the root draft's parseComplex, any failure being a
      NumberFormatException. */
  function ReadNums(line: string): (r: Result<seq<Complex>>)
    ensures r.Ok? <==> |Tokens(line)| >= 1 && forall k :: 0 <= k < |Tokens(line)| ==> Parser(ComplexText.RootPattern)(Tokens(line)[k]).Ok?
    ensures r.Ok? ==> |r.value| == |Tokens(line)| >= 1
    ensures r.Ok? ==> forall k :: 0 <= k < |r.value| ==> Parser(ComplexText.RootPattern)(Tokens(line)[k]) == Ok(r.value[k])
    ensures r.Err? ==> r.error == (if |Tokens(line)| == 0 then NoSuchElement else NumberFormat)
  {
    var ts := Tokens(line);
    if |ts| == 0 then Err(NoSuchElement) else ParseAll(Parser(ComplexText.RootPattern), ts)
  }

  /** The index of the first empty line, or the number of lines when there
      is none. */
  function FirstEmpty(lines: seq<string>): (e: nat)
    ensures e <= |lines|
    ensures forall k :: 0 <= k < e ==> lines[k] != ""
    ensures e < |lines| ==> lines[e] == ""
  {
    if |lines| == 0 || lines[0] == "" then 0 else 1 + FirstEmpty(lines[1..])
  }

  /** The loop of readMatrix over the lines nextLine() returns: the rows
      are the lines before the first empty one, each read by `read` in
      order as soon as it is returned. The first line that fails to read
      decides the error; running out of lines is a NoSuchElementException,
      raised only after every line before it has been read successfully. */
  function ReadLines<T>(read: string -> Result<T>, lines: seq<string>): (r: Result<seq<T>>)
    ensures var e := FirstEmpty(lines);
      r.Ok? <==> e < |lines| && forall k :: 0 <= k < e ==> read(lines[k]).Ok?
    ensures r.Ok? ==> |r.value| == FirstEmpty(lines)
    ensures r.Ok? ==> forall k :: 0 <= k < |r.value| ==> read(lines[k]) == Ok(r.value[k])
    ensures r.Err? ==>
      || (FirstEmpty(lines) == |lines| && r.error == NoSuchElement)
      || exists k :: 0 <= k < FirstEmpty(lines) && read(lines[k]) == Err(r.error)
    ensures r.Err? && (forall k :: 0 <= k < FirstEmpty(lines) ==> read(lines[k]).Ok?) ==>
      FirstEmpty(lines) == |lines| && r.error == NoSuchElement
    ensures r.Err? && !(forall k :: 0 <= k < FirstEmpty(lines) ==> read(lines[k]).Ok?) ==>
      exists k :: 0 <= k < FirstEmpty(lines) && read(lines[k]) == Err(r.error) &&
        forall l :: 0 <= l < k ==> read(lines[l]).Ok?
  {
    var e := FirstEmpty(lines);
    var front := lines[..e];
    assert forall k :: 0 <= k < e ==> front[k] == lines[k];
    var rows :- ParseAll(read, front);
    if e == |lines| then Err(NoSuchElement) else Ok(rows)
  }

  /** readMatrix without the console: the rows read, m their number and n
      the length of the first; no rows fails at mtx[0]. */
  function ReadMatrix(lines: seq<string>): (r: Result<Matrix>)
    ensures r.Ok? <==> ReadLines(ReadNums, lines).Ok? && |ReadLines(ReadNums, lines).value| >= 1
    ensures ReadLines(ReadNums, lines) == Ok([]) ==> r == Err(ArrayIndexOutOfBounds)
    ensures r.Ok? ==> Valid(r.value) && Ok(r.value.mtx) == ReadLines(ReadNums, lines)
    ensures ReadLines(ReadNums, lines).Err? ==> r == Err(ReadLines(ReadNums, lines).error)
  {
    var rows :- ReadLines(ReadNums, lines);
    assert forall i :: 0 <= i < |rows| ==> |rows[i]| >= 1 by {
      assert forall i :: 0 <= i < |rows| ==> ReadNums(lines[i]) == Ok(rows[i]);
    }
    FromArray(rows)
  }

  /** readMatrix as it should be: a row whose token count differs from the
      first row's is a MismatchDimensionException. */
  function ReadMatrixChecked(lines: seq<string>): (r: Result<Matrix>)
    ensures r.Ok? ==> Rectangular(r.value)
    ensures r.Ok? <==> ReadMatrix(lines).Ok? && Rectangular(ReadMatrix(lines).value)
    ensures r.Ok? ==> r == ReadMatrix(lines)
    ensures ReadMatrix(lines).Ok? && !Rectangular(ReadMatrix(lines).value) ==> r == Err(MismatchDimension)
    ensures ReadMatrix(lines).Err? ==> r == ReadMatrix(lines)
  {
    var a :- ReadMatrix(lines);
    if forall i :: 0 <= i < |a.mtx| ==> |a.mtx[i]| == a.n then Ok(a) else Err(MismatchDimension)
  }

  /** A short second row gets past readMatrix, and then the guard of
      getValue lets an access through that the array refuses, and the
      matrix cannot be added to itself. */
  lemma {:induction false} RaggedAccepted(lines: seq<string>)
    requires ReadLines(ReadNums, lines).Ok? && |ReadLines(ReadNums, lines).value| >= 2
    requires |ReadLines(ReadNums, lines).value[1]| < |ReadLines(ReadNums, lines).value[0]|
    ensures ReadMatrix(lines).Ok?
    ensures var a := ReadMatrix(lines).value;
      && !Rectangular(a) && 1 < a.m && |a.mtx[1]| < a.n
      && GetValue(a, 1, |a.mtx[1]|) == Err(ArrayIndexOutOfBounds)
      && Add(a, a) == Err(ArrayIndexOutOfBounds)
    ensures ReadMatrixChecked(lines) == Err(MismatchDimension)
  {
  }

  // ---- toString ----

  /** The text toString writes for each cell: the root draft's toString. */
  function Texts(row: seq<Complex>): (ts: seq<string>)
    ensures |ts| == |row| && forall k :: 0 <= k < |row| ==> ts[k] == ComplexText.ToString(row[k])
  {
    seq(|row|, k requires 0 <= k < |row| => ComplexText.ToString(row[k]))
  }

  /** One line of the rendering: a bar, the cells separated by two spaces,
      a bar, a newline. */
  function RowLine(ts: seq<string>): string {
    "|" + Join(ts, "  ") + "|\n"
  }

  /** The rendering: one line per row, in row order. */
  function Lines(rows: seq<seq<Complex>>): string {
    if |rows| == 0 then "" else Lines(rows[..|rows| - 1]) + RowLine(Texts(rows[|rows| - 1]))
  }

  /** The rendering of rows a followed by rows b is a's rendering followed
      by b's: each row contributes its own line, in row order. */
  lemma {:induction false} LinesAppend(a: seq<seq<Complex>>, b: seq<seq<Complex>>)
    ensures Lines(a + b) == Lines(a) + Lines(b)
    decreases |b|
  {
    if |b| == 0 {
      assert a + b == a;
    } else {
      var ab, init := a + b, b[..|b| - 1];
      var x, y, z := Lines(a), Lines(init), RowLine(Texts(b[|b| - 1]));
      SnocParts(a, b);
      LinesSnoc(ab);
      LinesSnoc(b);
      LinesAppend(a, init);
      Regroup(x, y, z);
    }
  }

  lemma {:induction false} SnocParts<T>(a: seq<T>, b: seq<T>)
    requires |b| > 0
    ensures (a + b)[..|a + b| - 1] == a + b[..|b| - 1]
    ensures (a + b)[|a + b| - 1] == b[|b| - 1]
  {
  }

  lemma {:induction false} Regroup(x: string, y: string, z: string)
    ensures (x + y) + z == x + (y + z)
  {
  }

  lemma {:induction false} LinesSnoc(rows: seq<seq<Complex>>)
    requires |rows| > 0
    ensures Lines(rows) == Lines(rows[..|rows| - 1]) + RowLine(Texts(rows[|rows| - 1]))
  {
  }

  /** What the inner loop appends: each cell followed by two spaces. */
  function Padded(ts: seq<string>): (p: string)
    ensures |p| >= 2 * |ts|
  {
    if |ts| == 0 then "" else Padded(ts[..|ts| - 1]) + ts[|ts| - 1] + "  "
  }

  lemma {:induction false} PaddedStep(ts: seq<string>, j: nat)
    requires j < |ts|
    ensures Padded(ts[..j + 1]) == Padded(ts[..j]) + ts[j] + "  "
  {
    assert ts[..j + 1][..j] == ts[..j];
  }

  /** Writing every cell with two spaces after it and cutting the last two
      characters is joining the cells with two spaces. */
  lemma {:induction false} PaddedJoin(ts: seq<string>)
    requires |ts| >= 1
    ensures Padded(ts) == Join(ts, "  ") + "  "
    decreases |ts|
  {
    if |ts| > 1 {
      var init := ts[..|ts| - 1];
      PaddedJoin(init);
      JoinSnoc(ts, "  ");
    } else {
      assert ts[..0] == [];
    }
  }

  lemma {:induction false} JoinSnoc(ts: seq<string>, sep: string)
    requires |ts| >= 2
    ensures Join(ts, sep) == Join(ts[..|ts| - 1], sep) + sep + ts[|ts| - 1]
    decreases |ts|
  {
    var init := ts[..|ts| - 1];
    if |ts| > 2 {
      JoinSnoc(ts[1..], sep);
      assert ts[1..][..|ts| - 2] == init[1..];
      assert init[0] == ts[0];
    } else {
      assert init == [ts[0]];
      assert ts[1..] == [ts[1]];
    }
  }

  // ---- reading back what toString writes ----

  /** The characters a cell's text is made of: signs, digits, dots and 'i'. */
  predicate Printable(t: string) {
    forall k :: 0 <= k < |t| ==> t[k] == 'i' || Decimal.IsSign(t[k]) || Decimal.IsNumberChar(t[k])
  }

  lemma {:induction false} PrintableJoined(a: string, b: string)
    requires Printable(a) && Printable(b)
    ensures Printable(a + b)
  {
    assert forall k :: 0 <= k < |a + b| ==> (a + b)[k] == if k < |a| then a[k] else b[k - |a|];
  }

  lemma {:induction false} RenderedPrintable(v: string)
    requires ComplexText.IsRendered(v)
    ensures Printable(v)
  {
  }

  lemma {:induction false} RenderPrintable(x: real)
    ensures Printable(Decimal.Render(x)) && |Decimal.Render(x)| >= 1
  {
    ComplexText.RenderShape(x);
    RenderedPrintable(Decimal.Render(x));
  }

  lemma {:induction false} TailPrintable(im: real)
    ensures Printable(ComplexText.Tail(im))
  {
    var sign, term := ComplexText.SignText(im), ComplexText.ImagTerm(im);
    assert ComplexText.Tail(im) == sign + term;
    assert Printable(sign);
    TermPrintable(im);
    PrintableJoined(sign, term);
  }

  lemma {:induction false} TermPrintable(im: real)
    ensures Printable(ComplexText.ImagTerm(im))
  {
    if im != 0.0 && Decimal.Abs(im) != 1.0 {
      var a := Decimal.Abs(im);
      ScaledTerm(im);
      ComplexText.RenderShape(a);
      MagnitudeTermPrintable(ComplexText.ImagTerm(im), Decimal.Render(a));
    }
  }

  lemma {:induction false} MagnitudeTermPrintable(t: string, v: string)
    requires ComplexText.IsRendered(v) && t == v + "i"
    ensures Printable(t)
  {
    RenderedPrintable(v);
    PrintableJoined(v, "i");
  }

  lemma {:induction false} ScaledTerm(im: real)
    requires im != 0.0 && Decimal.Abs(im) != 1.0
    ensures ComplexText.ImagTerm(im) == Decimal.Render(Decimal.Abs(im)) + "i"
  {
  }

  /** Printable text holds no whitespace. */
  lemma {:induction false} PrintableToken(t: string)
    requires |t| >= 1 && Printable(t)
    ensures IsToken(t)
  {
  }

  /** A cell's text is one token: Scanner.next() reads it whole. */
  lemma {:induction false} CellIsToken(c: Complex)
    ensures IsToken(ComplexText.ToString(c))
  {
    var re, tail := Decimal.Render(c.re), ComplexText.Tail(c.im);
    assert ComplexText.ToString(c) == re + tail;
    RenderPrintable(c.re);
    TailPrintable(c.im);
    PrintableJoined(re, tail);
    PrintableToken(re + tail);
  }

  lemma {:induction false} CellsAreTokens(row: seq<Complex>)
    ensures forall k :: 0 <= k < |row| ==> IsToken(Texts(row)[k])
  {
    forall k | 0 <= k < |row|
      ensures IsToken(Texts(row)[k])
    {
      CellIsToken(row[k]);
    }
  }

  /** A cell whose text the parser of a draft reads back: both parts have a
      plain decimal form, the imaginary part is written without an exponent,
      and for the root draft it is 0 or ±1. */
  predicate Readable(pat: ImagPattern.Pattern, c: Complex) {
    && Decimal.Representable(c.re) && Decimal.Representable(c.im) && Decimal.PlainForm(c.im)
    && (pat == ComplexText.RootPattern ==> c.im == 0.0 || Decimal.Abs(c.im) == 1.0)
  }

  lemma {:induction false} CellReadBack(pat: ImagPattern.Pattern, c: Complex)
    requires Readable(pat, c)
    ensures ComplexText.ParseComplex(pat, Some(ComplexText.ToString(c))) == Ok(c)
  {
    if pat == ComplexText.RootPattern {
      ComplexText.LegacyRoundTrip(c);
    } else {
      ComplexText.RoundTrip(c);
    }
  }

  /** Parsing the texts of a row of readable cells gives the row back. */
  lemma {:induction false} ParseTexts(pat: ImagPattern.Pattern, row: seq<Complex>)
    requires forall k :: 0 <= k < |row| ==> Readable(pat, row[k])
    ensures ParseAll(Parser(pat), Texts(row)) == Ok(row)
  {
    var ts := Texts(row);
    forall k | 0 <= k < |row|
      ensures ComplexText.ParseComplex(pat, Some(ts[k])) == Ok(row[k])
    {
      CellReadBack(pat, row[k]);
    }
    var r := ParseAll(Parser(pat), ts);
    assert r.value == row;
  }

  /** The text between the bars of a row line splits back into the cells'
      texts, and the jmath draft's parser reads each back. */
  lemma {:induction false} RowLineReadBack(row: seq<Complex>)
    requires |row| >= 1
    requires forall k :: 0 <= k < |row| ==> Readable(ComplexText.JMathPattern, row[k])
    ensures ParseAll(Parser(ComplexText.JMathPattern), Tokens(Join(Texts(row), "  "))) == Ok(row)
  {
    CellsAreTokens(row);
    TokensOfJoin(Texts(row), "  ");
    ParseTexts(ComplexText.JMathPattern, row);
  }

  /** readNums reads back a line of cell texts separated by spaces. */
  lemma {:induction false} ReadNumsReadBack(row: seq<Complex>)
    requires |row| >= 1
    requires forall k :: 0 <= k < |row| ==> Readable(ComplexText.RootPattern, row[k])
    ensures ReadNums(Join(Texts(row), " ")) == Ok(row)
  {
    CellsAreTokens(row);
    TokensOfJoin(Texts(row), " ");
    ParseTexts(ComplexText.RootPattern, row);
  }

  /** The console input that types in the rows: one line of cell texts per
      row, then an empty line. */
  function InputLines(rows: seq<seq<Complex>>): (lines: seq<string>)
    ensures |lines| == |rows| + 1 && lines[|rows|] == ""
    ensures forall k :: 0 <= k < |rows| ==> lines[k] == Join(Texts(rows[k]), " ")
  {
    seq(|rows|, k requires 0 <= k < |rows| => Join(Texts(rows[k]), " ")) + [""]
  }

  /** A joined line of tokens is not empty. */
  lemma {:induction false} JoinNonempty(ts: seq<string>, sep: string)
    requires |ts| >= 1 && |ts[0]| >= 1
    ensures Join(ts, sep) != ""
  {
    if |ts| > 1 {
      assert Join(ts, sep)[0] == ts[0][0];
    }
  }

  /** readMatrix reads back the rows typed in as InputLines. */
  lemma {:induction false} ReadMatrixReadBack(rows: seq<seq<Complex>>)
    requires |rows| >= 1
    requires forall i :: 0 <= i < |rows| ==> |rows[i]| >= 1
    requires forall i, j :: 0 <= i < |rows| && 0 <= j < |rows[i]| ==> Readable(ComplexText.RootPattern, rows[i][j])
    ensures ReadMatrix(InputLines(rows)) == Ok(Matrix(rows, |rows|, |rows[0]|))
  {
    var lines := InputLines(rows);
    forall i | 0 <= i < |rows|
      ensures lines[i] != "" && ReadNums(lines[i]) == Ok(rows[i])
    {
      CellIsToken(rows[i][0]);
      JoinNonempty(Texts(rows[i]), " ");
      ReadNumsReadBack(rows[i]);
    }
    FirstEmptyIs(lines, |rows|);
    var r := ReadLines(ReadNums, lines);
    assert r.value == rows;
  }

  lemma {:induction false} FirstEmptyIs(lines: seq<string>, e: nat)
    requires e < |lines| && lines[e] == ""
    requires forall k :: 0 <= k < e ==> lines[k] != ""
    ensures FirstEmpty(lines) == e
  {
  }

  /** 1.0 + 0.0i has a plain decimal form. */
  lemma {:induction false} OneReadable()
    ensures Readable(ComplexText.RootPattern, ONE)
  {
    assert Decimal.ExactAt(1.0, 1) by {
      assert Decimal.Shift(1.0, 1) == 10.0;
    }
    assert Decimal.ExactAt(0.0, 1) by {
      assert Decimal.Shift(0.0, 1) == 0.0;
    }
  }

  /** The input "1.0 1.0", "1.0", "" gives a 2-row matrix whose second row
      is short. */
  lemma {:induction false} RaggedExample()
    ensures var lines := InputLines([[ONE, ONE], [ONE]]);
      && ReadMatrix(lines) == Ok(Matrix([[ONE, ONE], [ONE]], 2, 2))
      && GetValue(ReadMatrix(lines).value, 1, 1) == Err(ArrayIndexOutOfBounds)
      && ReadMatrixChecked(lines) == Err(MismatchDimension)
  {
    var rows := [[ONE, ONE], [ONE]];
    OneReadable();
    ReadMatrixReadBack(rows);
    RaggedAccepted(InputLines(rows));
  }

  /** The rendering grows one row line at a time. */
  lemma {:induction false} LinesStep(rows: seq<seq<Complex>>, i: nat)
    requires i < |rows|
    ensures Lines(rows[..i + 1]) == Lines(rows[..i]) + RowLine(Texts(rows[i]))
  {
    assert rows[..i + 1][..i] == rows[..i];
  }

  /** Cutting the two spaces after the last cell and closing the row
      writes the row's line. */
  lemma {:induction false} CloseRow(before: string, ts: seq<string>)
    requires |ts| >= 1
    ensures var t := before + "|" + Padded(ts);
      |t| >= 2 && t[..|t| - 2] + "|\n" == before + RowLine(ts)
  {
    PaddedJoin(ts);
    var t := before + "|" + Padded(ts);
    assert t == (before + "|" + Join(ts, "  ")) + "  ";
    assert t[..|t| - 2] == before + "|" + Join(ts, "  ");
  }

  /** One pass of toString's outer loop on the text written before a row:
      the text to cut is too short only for the first row when it is empty;
      otherwise cutting two characters and closing the row appends the
      row's line. */
  lemma {:induction false} CutRow(before: string, ts: seq<string>, t: string)
    requires t == before + "|" + Padded(ts)
    ensures |t| < 2 <==> before == "" && |ts| == 0
    ensures |t| >= 2 ==> |t[..|t| - 2] + "|\n"| >= 2
    ensures |ts| >= 1 ==> |t| >= 2 && t[..|t| - 2] + "|\n" == before + RowLine(ts)
  {
    if |ts| >= 1 {
      CloseRow(before, ts);
    }
  }

  /** The inner loop of toString: each cell's text and two spaces appended
      to what is written so far. */
  method AppendCells(start: string, texts: seq<string>) returns (t: string)
    ensures t == start + Padded(texts)
  {
    t := start;
    var j := 0;
    while j < |texts|
      invariant 0 <= j <= |texts|
      invariant t == start + Padded(texts[..j])
    {
      PaddedStep(texts, j);
      t := t + texts[j] + "  ";
      j := j + 1;
    }
    assert texts[..|texts|] == texts;
  }

  /** toString(). For each row: a bar, every cell followed by two spaces,
      the last two characters cut off, a bar and a newline. An empty first
      row leaves a one-character text to cut, which String.substring
      refuses. */
  method ToString(a: Matrix) returns (r: Result<string>)
    ensures (forall i :: 0 <= i < |a.mtx| ==> |a.mtx[i]| >= 1) ==> r == Ok(Lines(a.mtx))
    ensures r.Err? <==> |a.mtx| > 0 && |a.mtx[0]| == 0
    ensures r.Err? ==> r.error == StringIndexOutOfBounds
  {
    var retStr := "";
    var i := 0;
    while i < |a.mtx|
      invariant 0 <= i <= |a.mtx|
      invariant (forall k :: 0 <= k < i ==> |a.mtx[k]| >= 1) ==> retStr == Lines(a.mtx[..i])
      invariant i == 0 <==> retStr == ""
      invariant i > 0 ==> |retStr| >= 2 && |a.mtx[0]| >= 1
    {
      var before := retStr;
      retStr := AppendCells(before + "|", Texts(a.mtx[i]));
      CutRow(before, Texts(a.mtx[i]), retStr);
      if |retStr| < 2 {
        return Err(StringIndexOutOfBounds);
      }
      retStr := retStr[..|retStr| - 2] + "|\n";
      if |a.mtx[i]| >= 1 {
        LinesStep(a.mtx, i);
      }
      i := i + 1;
    }
    assert a.mtx[..|a.mtx|] == a.mtx;
    r := Ok(retStr);
  }
}
