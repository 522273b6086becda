/** The integer helpers of the Hill cipher processor: padding of the key
    and the source text, divisibility and perfect squares, namespace
    validation, character positions, the column-wise matrix layout of a
    text and the encryption of the source matrix. Matrices hold integers:
    every entry the source stores is a namespace position, so its `f64`
    values are whole numbers. Characters are ASCII; uppercasing is the
    ASCII one. */
module HillProcess {
  import opened Wrappers
  import opened Arith

  /** `DEFAULT_NAMESPACE`: the 26 capital letters in order, then the
      space. */
  const DefaultNamespace: string := seq(26, k requires 0 <= k < 26 => (65 + k) as char) + [' ']

  datatype ProcessError = NotInNamespace(c: char)

  function Upper(c: char): char
  {
    if 'a' <= c <= 'z' then (c as int - 32) as char else c
  }

  function UpperStr(s: string): string
  {
    seq(|s|, i requires 0 <= i < |s| => Upper(s[i]))
  }

  function Repeat(c: char, n: nat): string
  {
    seq(n, _ => c)
  }

  // ---------------------------------------------------------------- padding

  /** `fill_text(txt, char, a, b)`: appends `a - b` copies of the character
      and uppercases everything; with nothing to append the text comes back
      as it was, not uppercased. `a - b` is unsigned, so `b <= a`. */
  function FillText(txt: string, c: char, a: nat, b: nat): (r: string)
    requires b <= a
    ensures a == b ==> r == txt
    ensures a > b ==> |r| == |txt| + (a - b)
    ensures a > b ==> forall i :: 0 <= i < |txt| ==> r[i] == Upper(txt[i])
    ensures a > b ==> forall i :: |txt| <= i < |r| ==> r[i] == Upper(c)
  {
    if a - b != 0 then UpperStr(txt + Repeat(c, a - b)) else txt
  }

  // ------------------------------------------------------ perfect squares

  /** The integer square root, the largest `k` with `k * k <= n`. */
  function FloorSqrt(n: nat): (k: nat)
    ensures k * k <= n < (k + 1) * (k + 1)
  {
    if n == 0 then 0
    else
      var k := FloorSqrt(n - 1);
      assert (k + 2) * (k + 2) == (k + 1) * (k + 1) + 2 * k + 3;
      if (k + 1) * (k + 1) <= n then k + 1 else k
  }

  /** `n` is a perfect square. The source's `f64` test `sqrt * sqrt == n`
      is not this predicate: the rounded product is exactly `n` for many
      non-squares as well (11, 14, 17, 21, ...). `TurnPerfectSqrtAsWritten`
      takes that test as a parameter. */
  predicate IsSquare(n: nat)
  {
    FloorSqrt(n) * FloorSqrt(n) == n
  }

  lemma SquareMono(a: nat, b: nat)
    requires a <= b
    ensures a * a <= b * b
  {
    assert b * b - a * a == (b - a) * (b + a);
  }

  /** `IsSquare` holds exactly of the squares of naturals. */
  lemma SquareMeans(n: nat)
    ensures IsSquare(n) <==> exists k: nat :: k * k == n
  {
    var f := FloorSqrt(n);
    if k: nat :| k * k == n {
      if k < f {
        SquareMono(k + 1, f);
      } else if k > f {
        SquareMono(f + 1, k);
      }
    }
  }

  lemma SquareIsSquare(k: nat)
    ensures IsSquare(k * k)
  {
    SquareMeans(k * k);
  }

  /** `k` is the integer square root of every number from `k * k` up to
      the next square. */
  lemma FloorSqrtIs(n: nat, k: nat)
    requires k * k <= n < (k + 1) * (k + 1)
    ensures FloorSqrt(n) == k
  {
    var f := FloorSqrt(n);
    if f < k {
      SquareMono(f + 1, k);
    } else if f > k {
      SquareMono(k + 1, f);
    }
  }

  /** A number strictly between two consecutive squares is no square. */
  lemma BetweenSquares(n: nat, k: nat)
    requires k * k < n < (k + 1) * (k + 1)
    ensures !IsSquare(n)
  {
    var f := FloorSqrt(n);
    if f < k {
      SquareMono(f + 1, k);
    } else if f > k {
      SquareMono(k + 1, f);
    }
  }

  /** `turn_perfect_sqrt(dim)` with an exact square test: counts upwards
      from `dim` until it meets a perfect square, which is therefore the
      least one at or above `dim`. */
  method TurnPerfectSqrt(dim: nat) returns (r: nat)
    ensures r >= dim && IsSquare(r)
    ensures forall m :: dim <= m < r ==> !IsSquare(m)
  {
    var next := (FloorSqrt(dim) + 1) * (FloorSqrt(dim) + 1);
    SquareIsSquare(FloorSqrt(dim) + 1);
    var base := dim;
    while !IsSquare(base)
      invariant dim <= base <= next
      invariant forall m :: dim <= m < base ==> !IsSquare(m)
      decreases next - base
    {
      base := base + 1;
    }
    r := base;
  }

  /** `turn_perfect_sqrt(dim)` as written, with its square test
      `sqrt * sqrt == base` on `f64` as the parameter `accepts`. That test
      holds of every perfect square the source meets, and of some other
      numbers; the loop stops at the first number at or above `dim` it
      accepts. */
  method TurnPerfectSqrtAsWritten(accepts: nat -> bool, dim: nat) returns (r: nat)
    requires forall n: nat {:trigger IsSquare(n)} :: IsSquare(n) ==> accepts(n)
    ensures r >= dim && accepts(r)
    ensures forall m :: dim <= m < r ==> !accepts(m)
  {
    var next := (FloorSqrt(dim) + 1) * (FloorSqrt(dim) + 1);
    SquareIsSquare(FloorSqrt(dim) + 1);
    var base := dim;
    while !accepts(base)
      invariant dim <= base <= next
      invariant forall m :: dim <= m < base ==> !accepts(m)
      decreases next - base
    {
      base := base + 1;
    }
    r := base;
  }

  /** In `f64`, `sqrt(10.0) * sqrt(10.0)` is not 10 while
      `sqrt(11.0) * sqrt(11.0)` rounds to exactly 11. With that test a
      ten-character key is padded to 11 characters. The key dimension
      `(11.0).sqrt() as usize` is then 3, and 11 positions do not fill a
      3 by 3 key matrix. */
  method PaddingAsWrittenMissesSquare(accepts: nat -> bool) returns (r: nat)
    requires forall n: nat {:trigger IsSquare(n)} :: IsSquare(n) ==> accepts(n)
    requires !accepts(10) && accepts(11)
    ensures r == 11 && !IsSquare(r)
    ensures FloorSqrt(r) == 3 && FloorSqrt(r) * FloorSqrt(r) != r
  {
    r := TurnPerfectSqrtAsWritten(accepts, 10);
    FloorSqrtIs(11, 3);
    BetweenSquares(11, 3);
  }

  // ----------------------------------------------------------- divisibility

  /** `is_divisble(target, num)`; the source panics on a zero divisor. */
  predicate IsDivisible(target: nat, num: nat)
    requires num > 0
  {
    target % num == 0
  }

  /** `is_divisble` holds exactly of the multiples of the divisor. */
  lemma IsDivisibleMeans(target: nat, num: nat)
    requires num > 0
    ensures IsDivisible(target, num) <==> exists k: nat :: target == k * num
  {
    if k: nat :| target == k * num {
      DivModUnique(target, num, k, 0);
    }
    if IsDivisible(target, num) {
      var k := target / num;
      assert target == k * num;
    }
  }

  /** The least multiple of `dim` at or above `target`. */
  lemma NextMultiple(target: nat, dim: nat) returns (m: nat)
    requires dim > 0
    ensures target <= m < target + dim && IsDivisible(m, dim)
  {
    var q, rem := target / dim, target % dim;
    if rem == 0 {
      m := target;
    } else {
      m := target + (dim - rem);
      assert m == (q + 1) * dim + 0 by {
        assert target == q * dim + rem;
        MulPred(q + 1, dim);
      }
      DivModUnique(m, dim, q + 1, 0);
    }
  }

  /** `turn_divisible(target, dim)`: counts upwards from `target` until it
      meets a multiple of `dim`, which is therefore the least one at or
      above `target`, and less than `dim` away. The source panics on a
      zero `dim`, dividing by it. */
  method TurnDivisible(target: nat, dim: nat) returns (r: nat)
    requires dim > 0
    ensures target <= r < target + dim && IsDivisible(r, dim)
    ensures forall m :: target <= m < r ==> !IsDivisible(m, dim)
  {
    var bound := NextMultiple(target, dim);
    var base := target;
    while base % dim != 0
      invariant target <= base <= bound
      invariant forall m :: target <= m < base ==> !IsDivisible(m, dim)
      decreases bound - base
    {
      base := base + 1;
    }
    r := base;
  }

  /** `f` is a nonzero divisor of `t`. */
  predicate Divides(f: nat, t: nat)
  {
    f > 0 && t % f == 0
  }

  /** `has_any_factor(target, number)`: whether some `f` in
      `target..number` divides `target`. With `target == 0` and a
      nonempty range the source divides by zero. */
  method HasAnyFactor(target: nat, number: nat) returns (r: bool)
    requires target > 0 || target >= number
    ensures r <==> exists f :: target <= f < number && Divides(f, target)
  {
    var factor := target;
    while factor < number
      invariant target <= factor
      invariant forall f :: target <= f < factor ==> !Divides(f, target)
    {
      if target % factor == 0 {
        assert Divides(factor, target);
        return true;
      }
      factor := factor + 1;
    }
    return false;
  }

  /** Every positive `target` divides itself, so `has_any_factor` only asks
      whether `target < number`. */
  lemma {:induction false} AnyFactorIffBelow(target: nat, number: nat)
    requires target > 0
    ensures (exists f :: target <= f < number && Divides(f, target)) <==> target < number
  {
    if target < number {
      assert Divides(target, target);
    }
  }

  // -------------------------------------------------------------- namespace

  /** The first index of `c` in `ns`, what `iter().position` and
      `iter().find` look for. */
  function Position(ns: string, c: char): (r: Option<nat>)
    ensures r.None? <==> c !in ns
    ensures r.Some? ==> r.value < |ns| && ns[r.value] == c
    ensures r.Some? ==> forall k :: 0 <= k < r.value ==> ns[k] != c
  {
    if |ns| == 0 then None
    else if ns[0] == c then Some(0)
    else match Position(ns[1..], c)
      case None => None
      case Some(k) => Some(k + 1)
  }

  /** `is_in_namespace(char, namespace)`: an error naming the character
      exactly when it is not in the namespace. */
  function IsInNamespace(c: char, ns: string): (r: Result<(), ProcessError>)
    ensures r.Ok? <==> c in ns
    ensures r.Err? ==> r.error == NotInNamespace(c)
  {
    if Position(ns, c).None? then Err(NotInNamespace(c)) else Ok(())
  }

  predicate AllIn(s: string, ns: string)
  {
    forall i :: 0 <= i < |s| ==> s[i] in ns
  }

  /** `chek_information(key, src, fill, namespace)`: checks the fill
      character, then every key character, then every source character,
      and stops at the first one outside the namespace. The check is case
      sensitive. */
  method ChekInformation(key: string, src: string, fill: Option<char>, ns: string)
    returns (r: Result<(), ProcessError>)
    ensures r.Err? <==> (fill.Some? && fill.value !in ns) || !AllIn(key, ns) || !AllIn(src, ns)
    ensures r.Err? ==> r.error.c !in ns
  {
    if fill.Some? {
      var e := IsInNamespace(fill.value, ns);
      if e.Err? {
        return e;
      }
    }
    var target := key;
    var pass := 0;
    while pass < 2
      invariant 0 <= pass <= 2
      invariant pass == 0 ==> target == key
      invariant pass == 1 ==> target == src
      invariant pass >= 1 ==> AllIn(key, ns)
      invariant pass == 2 ==> AllIn(src, ns)
    {
      var i := 0;
      while i < |target|
        invariant 0 <= i <= |target|
        invariant forall k :: 0 <= k < i ==> target[k] in ns
      {
        var e := IsInNamespace(target[i], ns);
        if e.Err? {
          return e;
        }
        i := i + 1;
      }
      target := src;
      pass := pass + 1;
    }
    return Ok(());
  }

  /** `char_pos(char, namespace)`: the index of the uppercased character;
      the source unwraps the search, so the character must be there. */
  function CharPos(c: char, ns: string): (r: nat)
    requires Upper(c) in ns
    ensures r < |ns| && ns[r] == Upper(c)
    ensures forall k :: 0 <= k < r ==> ns[k] != Upper(c)
  {
    Position(ns, Upper(c)).value
  }

  /** Every character of `s`, uppercased, is in the namespace. */
  predicate Encodable(s: string, ns: string)
  {
    forall i :: 0 <= i < |s| ==> Upper(s[i]) in ns
  }

  // ---------------------------------------------------------------- padding

  /** `fill_key(key, char)`: pads the key to the least perfect-square
      length at or above its own. */
  method FillKey(key: string, c: char) returns (r: string)
    ensures |r| >= |key| && IsSquare(|r|)
    ensures forall m :: |key| <= m < |r| ==> !IsSquare(m)
    ensures |r| == |key| ==> r == key
    ensures |r| > |key| ==> r == UpperStr(key) + Repeat(Upper(c), |r| - |key|)
  {
    var target := TurnPerfectSqrt(|key|);
    r := FillText(key, c, target, |key|);
  }

  /** `fill_src(src, char, key_dim)`: pads the text to the least length at
      or above its own that the key dimension divides. The source panics on
      a zero dimension, which `turn_divisible` divides by. */
  method FillSrc(src: string, c: char, keyDim: nat) returns (r: string)
    requires keyDim > 0
    ensures |src| <= |r| < |src| + keyDim && IsDivisible(|r|, keyDim)
    ensures forall m :: |src| <= m < |r| ==> !IsDivisible(m, keyDim)
    ensures |r| == |src| ==> r == src
    ensures |r| > |src| ==> r == UpperStr(src) + Repeat(Upper(c), |r| - |src|)
  {
    var target := TurnDivisible(|src|, keyDim);
    r := FillText(src, c, target, |src|);
  }

  // --------------------------------------------------------------- matrices

  type Matrix = seq<seq<int>>

  predicate IsMatrix(m: Matrix, rows: nat, cols: nat)
  {
    |m| == rows && forall r :: 0 <= r < rows ==> |m[r]| == cols
  }

  /** `Matrix::new(rows, cols, data)`: the data cut into rows of `cols`
      values. */
  function FromRows(rows: nat, cols: nat, data: seq<int>): (m: Matrix)
    requires |data| == rows * cols
    ensures IsMatrix(m, rows, cols)
    decreases rows
  {
    if rows == 0 then []
    else
      RowEnd(0, rows, cols);
      MulPred(rows, cols);
      [data[..cols]] + FromRows(rows - 1, cols, data[cols..])
  }

  /** Row `r`, column `c` of `Matrix::new(rows, cols, data)` is
      `data[r * cols + c]`. */
  lemma {:induction false} FromRowsAt(rows: nat, cols: nat, data: seq<int>, r: nat, c: nat)
    requires |data| == rows * cols && r < rows && c < cols
    ensures r * cols + c < |data| && FromRows(rows, cols, data)[r][c] == data[r * cols + c]
    decreases r
  {
    RowEnd(0, rows, cols);
    MulPred(rows, cols);
    RowEnd(r, rows, cols);
    if r > 0 {
      FromRowsAt(rows - 1, cols, data[cols..], r - 1, c);
      MulPred(r, cols);
    }
  }

  function Transpose(m: Matrix, rows: nat, cols: nat): (t: Matrix)
    requires IsMatrix(m, rows, cols)
    ensures IsMatrix(t, cols, rows)
    ensures forall c, r :: 0 <= c < cols && 0 <= r < rows ==> t[c][r] == m[r][c]
  {
    seq(cols, c requires 0 <= c < cols => seq(rows, r requires 0 <= r < rows => m[r][c]))
  }

  /** The namespace positions of the characters of `s`. */
  function Positions(s: string, ns: string): (p: seq<int>)
    requires Encodable(s, ns)
    ensures |p| == |s|
    ensures forall i :: 0 <= i < |s| ==> p[i] == CharPos(s[i], ns)
  {
    seq(|s|, i requires 0 <= i < |s| => CharPos(s[i], ns))
  }

  /** `txt_mtrx_repr(width, height, src, namespace)`: the positions are
      filled into a `width x height` matrix row by row, which is then
      transposed. `Matrix::new` needs exactly `width * height` values; the
      source wraps the matrix in an `Ok` that is never an error. */
  function TxtMtrxRepr(width: nat, height: nat, src: string, ns: string): (m: Matrix)
    requires |src| == width * height && Encodable(src, ns)
    ensures IsMatrix(m, height, width)
  {
    Transpose(FromRows(width, height, Positions(src, ns)), width, height)
  }

  /** Where entry `(i, j)` of a `height x width` matrix sits when the
      matrix is read column by column. */
  function ColumnMajor(i: nat, j: nat, height: nat, width: nat): (k: nat)
    requires i < height && j < width
    ensures k == j * height + i && k < width * height
  {
    RowEnd(j, width, height);
    j * height + i
  }

  /** The text runs down the columns of the `height x width` matrix: entry
      `(i, j)` is the position of character `j * height + i`. */
  lemma TxtMtrxLayout(width: nat, height: nat, src: string, ns: string)
    requires |src| == width * height && Encodable(src, ns)
    ensures forall i, j :: 0 <= i < height && 0 <= j < width ==>
              TxtMtrxRepr(width, height, src, ns)[i][j] == CharPos(src[ColumnMajor(i, j, height, width)], ns)
  {
    forall i, j | 0 <= i < height && 0 <= j < width
      ensures TxtMtrxRepr(width, height, src, ns)[i][j] == CharPos(src[ColumnMajor(i, j, height, width)], ns)
    {
      TxtMtrxAt(width, height, src, ns, i, j);
    }
  }

  /** One entry of the layout. */
  lemma TxtMtrxAt(width: nat, height: nat, src: string, ns: string, i: nat, j: nat)
    requires |src| == width * height && Encodable(src, ns) && i < height && j < width
    ensures TxtMtrxRepr(width, height, src, ns)[i][j] == CharPos(src[ColumnMajor(i, j, height, width)], ns)
  {
    var data := Positions(src, ns);
    FromRowsAt(width, height, data, j, i);
  }

  function Dot(u: seq<int>, v: seq<int>): int
    requires |u| == |v|
  {
    if |u| == 0 then 0 else u[0] * v[0] + Dot(u[1..], v[1..])
  }

  function Column(m: Matrix, c: nat, rows: nat, cols: nat): (col: seq<int>)
    requires IsMatrix(m, rows, cols) && c < cols
    ensures |col| == rows
  {
    seq(rows, r requires 0 <= r < rows => m[r][c])
  }

  /** The product of an `n x k` and a `k x w` matrix. */
  function MatMul(a: Matrix, b: Matrix, n: nat, k: nat, w: nat): (p: Matrix)
    requires IsMatrix(a, n, k) && IsMatrix(b, k, w)
    ensures IsMatrix(p, n, w)
  {
    seq(n, i requires 0 <= i < n => seq(w, j requires 0 <= j < w => Dot(a[i], Column(b, j, k, w))))
  }

  /** `into_vec`: the rows one after the other. */
  function Flatten(m: Matrix): seq<int>
  {
    if |m| == 0 then [] else m[0] + Flatten(m[1..])
  }

  /** The namespace index of a product entry: `v % (len - 1)` on `f64`
      keeps the sign of `v`, and the cast to `usize` turns a negative
      value into 0. */
  function SymbolIndex(v: int, modulus: nat): (k: nat)
    requires modulus > 0
    ensures k < modulus
  {
    if v >= 0 then v % modulus else 0
  }

  /** Each value mapped to the namespace symbol at its index modulo
      `len - 1`. */
  function Encode(vs: seq<int>, ns: string): (r: string)
    requires |ns| >= 2
    ensures |r| == |vs|
  {
    seq(|vs|, k requires 0 <= k < |vs| => ns[SymbolIndex(vs[k], |ns| - 1)])
  }

  lemma EncodeConcat(a: seq<int>, b: seq<int>, ns: string)
    requires |ns| >= 2
    ensures Encode(a + b, ns) == Encode(a, ns) + Encode(b, ns)
  {
  }

  /** `cypher_src_mtrx(key, src, namespace)`: multiplies the `n x n` key
      with the `n x w` source matrix, reads the product column by column
      (transpose, then row by row) and maps each value into the
      namespace. */
  function CypherSrcMtrx(key: Matrix, src: Matrix, ns: string, n: nat, w: nat): (r: string)
    requires IsMatrix(key, n, n) && IsMatrix(src, n, w)
    requires |ns| >= 2
  {
    Encode(Flatten(Transpose(MatMul(key, src, n, n, w), n, w)), ns)
  }

  /** The Hill encryption of one source column: the key times the column,
      each entry mapped into the namespace. */
  function HillBlock(key: Matrix, col: seq<int>, ns: string, n: nat): (b: string)
    requires IsMatrix(key, n, n) && |col| == n && |ns| >= 2
    ensures |b| == n
  {
    Encode(seq(n, i requires 0 <= i < n => Dot(key[i], col)), ns)
  }

  /** The Hill encryptions of source columns `c`, `c + 1`, ..., `w - 1`,
      one after the other. */
  function HillBlocks(key: Matrix, src: Matrix, ns: string, n: nat, w: nat, c: nat): string
    requires IsMatrix(key, n, n) && IsMatrix(src, n, w) && |ns| >= 2
    decreases w - c
  {
    if c >= w then [] else HillBlock(key, Column(src, c, n, w), ns, n) + HillBlocks(key, src, ns, n, w, c + 1)
  }

  lemma {:induction false} BlocksFrom(key: Matrix, src: Matrix, ns: string, n: nat, w: nat, c: nat)
    requires IsMatrix(key, n, n) && IsMatrix(src, n, w) && |ns| >= 2 && c <= w
    ensures Encode(Flatten(Transpose(MatMul(key, src, n, n, w), n, w)[c..]), ns) == HillBlocks(key, src, ns, n, w, c)
    decreases w - c
  {
    var t := Transpose(MatMul(key, src, n, n, w), n, w);
    if c < w {
      BlocksFrom(key, src, ns, n, w, c + 1);
      assert t[c..][1..] == t[c + 1..];
      EncodeConcat(t[c], Flatten(t[c + 1..]), ns);
      assert t[c] == seq(n, i requires 0 <= i < n => Dot(key[i], Column(src, c, n, w)));
    } else {
      assert t[c..] == [];
    }
  }

  /** The cipher text is the Hill encryptions of the source columns, one
      block of `n` symbols per column, in column order. */
  lemma CypherIsBlockwise(key: Matrix, src: Matrix, ns: string, n: nat, w: nat)
    requires IsMatrix(key, n, n) && IsMatrix(src, n, w) && |ns| >= 2
    ensures CypherSrcMtrx(key, src, ns, n, w) == HillBlocks(key, src, ns, n, w, 0)
  {
    var t := Transpose(MatMul(key, src, n, n, w), n, w);
    BlocksFrom(key, src, ns, n, w, 0);
    assert t[0..] == t;
  }

  /** Reducing modulo `len - 1` never selects the last namespace position:
      every cipher symbol is among the first `len - 1` symbols, so with the
      default namespace the space never appears in a cipher text. */
  lemma NeverLastPosition(key: Matrix, src: Matrix, ns: string, n: nat, w: nat)
    requires IsMatrix(key, n, n) && IsMatrix(src, n, w) && |ns| >= 2
    ensures forall k :: 0 <= k < |CypherSrcMtrx(key, src, ns, n, w)| ==>
              CypherSrcMtrx(key, src, ns, n, w)[k] in ns[..|ns| - 1]
  {
    var r := CypherSrcMtrx(key, src, ns, n, w);
    forall k | 0 <= k < |r|
      ensures r[k] in ns[..|ns| - 1]
    {
      var vs := Flatten(Transpose(MatMul(key, src, n, n, w), n, w));
      assert r[k] == ns[..|ns| - 1][SymbolIndex(vs[k], |ns| - 1)];
    }
  }

  // ------------------------------------------------------------------ tests

  /** The source's test: `fill_key("ABCDE", 'L')` is `"ABCDELLLL"`. */
  method TestFillKey(key: string, c: char) returns (r: string)
    requires key == "ABCDE" && c == 'L'
    ensures r == "ABCDELLLL"
  {
    r := FillKey(key, c);
    assert IsSquare(9) by {
      SquareIsSquare(3);
    }
    forall m | 5 <= m < 9
      ensures !IsSquare(m)
    {
      BetweenSquares(m, 2);
    }
    assert |r| == 9;
  }

  /** The source's test: `fill_src("ABCD", 'E', 3)` is `"ABCDEE"`. */
  method TestFillSrc(src: string, c: char) returns (r: string)
    requires src == "ABCD" && c == 'E'
    ensures r == "ABCDEE"
  {
    r := FillSrc(src, c, 3);
    assert !IsDivisible(4, 3) && !IsDivisible(5, 3);
    assert |r| == 6;
  }

  /** A capital letter sits at its alphabet index in the default
      namespace. */
  predicate Capital(c: char)
  {
    'A' <= c <= 'Z'
  }

  lemma LetterPosition(c: char)
    requires Capital(c)
    ensures c in DefaultNamespace
    ensures Upper(c) == c && CharPos(c, DefaultNamespace) == c as int - 65
  {
    var ns := DefaultNamespace;
    assert ns[c as int - 65] == c;
    var p := CharPos(c, ns);
  }

  /** A text of capital letters passes the namespace checks. */
  lemma CapitalsEncodable(s: string)
    requires forall i :: 0 <= i < |s| ==> Capital(s[i])
    ensures AllIn(s, DefaultNamespace) && Encodable(s, DefaultNamespace)
  {
    forall i | 0 <= i < |s|
      ensures s[i] in DefaultNamespace && Upper(s[i]) in DefaultNamespace
    {
      LetterPosition(s[i]);
    }
  }

  lemma Row2<T>(row: seq<T>, a: T, b: T)
    requires |row| == 2 && row[0] == a && row[1] == b
    ensures row == [a, b]
  {
  }

  lemma Row3<T>(row: seq<T>, a: T, b: T, c: T)
    requires |row| == 3 && row[0] == a && row[1] == b && row[2] == c
    ensures row == [a, b, c]
  {
  }

  lemma Dot3(u: seq<int>, v: seq<int>)
    requires |u| == 3 && |v| == 3
    ensures Dot(u, v) == u[0] * v[0] + u[1] * v[1] + u[2] * v[2]
  {
    assert Dot(u[1..][1..], v[1..][1..]) == u[2] * v[2] + Dot(u[1..][1..][1..], v[1..][1..][1..]);
    assert Dot(u[1..], v[1..]) == u[1] * v[1] + Dot(u[1..][1..], v[1..][1..]);
  }

  /** One block of the source's cipher test: the key times the column
      `(x, y, z)`, mapped into the default namespace, spells `a b c`. */
  lemma TestBlock(key: Matrix, col: seq<int>, x: nat, y: nat, z: nat, a: char, b: char, c: char)
    requires key == [[5, 17, 20], [9, 23, 3], [2, 11, 13]] && col == [x, y, z]
    requires a as int == 65 + (5 * x + 17 * y + 20 * z) % 26
    requires b as int == 65 + (9 * x + 23 * y + 3 * z) % 26
    requires c as int == 65 + (2 * x + 11 * y + 13 * z) % 26
    ensures HillBlock(key, col, DefaultNamespace, 3) == [a, b, c]
  {
    var hb := HillBlock(key, col, DefaultNamespace, 3);
    Dot3(key[0], col);
    Dot3(key[1], col);
    Dot3(key[2], col);
    Row3(hb, a, b, c);
  }

  lemma Rows3(m: Matrix, r0: seq<int>, r1: seq<int>, r2: seq<int>)
    requires |m| == 3 && m[0] == r0 && m[1] == r1 && m[2] == r2
    ensures m == [r0, r1, r2]
  {
  }

  /** The source's tests of `chek_information`: "TUNA" and "CODEINSIDE"
      with fill 'L' pass; "TUNA232323" and "@CODEINSIDE." do not. */
  method TestChekInformation() returns (ok: Result<(), ProcessError>, bad: Result<(), ProcessError>)
    ensures ok.Ok? && bad.Err?
  {
    LetterPosition('L');
    CapitalsEncodable("TUNA");
    CapitalsEncodable("CODEINSIDE");
    ok := ChekInformation("TUNA", "CODEINSIDE", Some('L'), DefaultNamespace);
    bad := ChekInformation("TUNA232323", "@CODEINSIDE.", Some('L'), DefaultNamespace);
    assert "TUNA232323"[4] == '2';
    assert '2' !in DefaultNamespace;
  }

  /** Row `i` of a 3 x 3 text matrix, from the positions of its three
      characters. */
  lemma MatrixRow3(src: string, ns: string, i: nat, a: int, b: int, c: int)
    requires |src| == 9 && i < 3 && Encodable(src, ns)
    requires CharPos(src[i], ns) == a && CharPos(src[3 + i], ns) == b && CharPos(src[6 + i], ns) == c
    ensures TxtMtrxRepr(3, 3, src, ns)[i] == [a, b, c]
  {
    TxtMtrxAt(3, 3, src, ns, i, 0);
    TxtMtrxAt(3, 3, src, ns, i, 1);
    TxtMtrxAt(3, 3, src, ns, i, 2);
    Row3(TxtMtrxRepr(3, 3, src, ns)[i], a, b, c);
  }

  /** Row `i` of a 3 x 2 text matrix, from the positions of its two
      characters. */
  lemma MatrixRow2(src: string, ns: string, i: nat, a: int, b: int)
    requires |src| == 6 && i < 3 && Encodable(src, ns)
    requires CharPos(src[i], ns) == a && CharPos(src[3 + i], ns) == b
    ensures TxtMtrxRepr(2, 3, src, ns)[i] == [a, b]
  {
    TxtMtrxAt(2, 3, src, ns, i, 0);
    TxtMtrxAt(2, 3, src, ns, i, 1);
    Row2(TxtMtrxRepr(2, 3, src, ns)[i], a, b);
  }

  /** Row `i` of the 3 x 3 matrix of an encodable text whose row holds the
      capital letters `x`, `y`, `z`. */
  lemma CapitalRow3(src: string, i: nat, x: char, y: char, z: char)
    requires |src| == 9 && i < 3 && Encodable(src, DefaultNamespace)
    requires src[i] == x && src[3 + i] == y && src[6 + i] == z
    requires Capital(x) && Capital(y) && Capital(z)
    ensures TxtMtrxRepr(3, 3, src, DefaultNamespace)[i] == [x as int - 65, y as int - 65, z as int - 65]
  {
    LetterPosition(x);
    LetterPosition(y);
    LetterPosition(z);
    MatrixRow3(src, DefaultNamespace, i, x as int - 65, y as int - 65, z as int - 65);
  }

  /** Row `i` of the 3 x 2 matrix of an encodable text whose row holds the
      capital letters `x`, `y`. */
  lemma CapitalRow2(src: string, i: nat, x: char, y: char)
    requires |src| == 6 && i < 3 && Encodable(src, DefaultNamespace)
    requires src[i] == x && src[3 + i] == y
    requires Capital(x) && Capital(y)
    ensures TxtMtrxRepr(2, 3, src, DefaultNamespace)[i] == [x as int - 65, y as int - 65]
  {
    LetterPosition(x);
    LetterPosition(y);
    MatrixRow2(src, DefaultNamespace, i, x as int - 65, y as int - 65);
  }

  /** Rows 1 and 2 of the 3 x 3 matrix of a nine-letter capital text. */
  lemma CapitalLowerRows(src: string, x1: char, x2: char, x4: char, x5: char, x7: char, x8: char)
    requires |src| == 9 && Encodable(src, DefaultNamespace)
    requires src[1] == x1 && src[2] == x2 && src[4] == x4 && src[5] == x5 && src[7] == x7 && src[8] == x8
    requires Capital(x1) && Capital(x2) && Capital(x4) && Capital(x5) && Capital(x7) && Capital(x8)
    ensures TxtMtrxRepr(3, 3, src, DefaultNamespace)[1] == [x1 as int - 65, x4 as int - 65, x7 as int - 65]
    ensures TxtMtrxRepr(3, 3, src, DefaultNamespace)[2] == [x2 as int - 65, x5 as int - 65, x8 as int - 65]
  {
    CapitalRow3(src, 1, x1, x4, x7);
    CapitalRow3(src, 2, x2, x5, x8);
  }

  /** The rows of the 3 x 3 matrix of a nine-letter capital text, read
      column by column. */
  lemma CapitalMatrix3(src: string, x0: char, x1: char, x2: char, x3: char, x4: char, x5: char, x6: char, x7: char, x8: char)
    requires |src| == 9 && Encodable(src, DefaultNamespace)
    requires src[0] == x0 && src[1] == x1 && src[2] == x2 && src[3] == x3 && src[4] == x4
    requires src[5] == x5 && src[6] == x6 && src[7] == x7 && src[8] == x8
    requires Capital(x0) && Capital(x1) && Capital(x2) && Capital(x3) && Capital(x4)
    requires Capital(x5) && Capital(x6) && Capital(x7) && Capital(x8)
    ensures TxtMtrxRepr(3, 3, src, DefaultNamespace)[0] == [x0 as int - 65, x3 as int - 65, x6 as int - 65]
    ensures TxtMtrxRepr(3, 3, src, DefaultNamespace)[1] == [x1 as int - 65, x4 as int - 65, x7 as int - 65]
    ensures TxtMtrxRepr(3, 3, src, DefaultNamespace)[2] == [x2 as int - 65, x5 as int - 65, x8 as int - 65]
  {
    CapitalRow3(src, 0, x0, x3, x6);
    CapitalLowerRows(src, x1, x2, x4, x5, x7, x8);
  }

  /** The rows of the 3 x 2 matrix of a six-letter capital text, read
      column by column. */
  lemma CapitalMatrix32(src: string, x0: char, x1: char, x2: char, x3: char, x4: char, x5: char)
    requires |src| == 6 && Encodable(src, DefaultNamespace)
    requires src[0] == x0 && src[1] == x1 && src[2] == x2 && src[3] == x3 && src[4] == x4 && src[5] == x5
    requires Capital(x0) && Capital(x1) && Capital(x2) && Capital(x3) && Capital(x4) && Capital(x5)
    ensures TxtMtrxRepr(2, 3, src, DefaultNamespace)[0] == [x0 as int - 65, x3 as int - 65]
    ensures TxtMtrxRepr(2, 3, src, DefaultNamespace)[1] == [x1 as int - 65, x4 as int - 65]
    ensures TxtMtrxRepr(2, 3, src, DefaultNamespace)[2] == [x2 as int - 65, x5 as int - 65]
  {
    CapitalRow2(src, 0, x0, x3);
    CapitalRow2(src, 1, x1, x4);
    CapitalRow2(src, 2, x2, x5);
  }

  /** The source's test: "ABCDEFGHI" runs down the columns of a 3 x 3
      matrix. */
  lemma TestKeyMatrix(key: string)
    requires key == "ABCDEFGHI"
    ensures Encodable(key, DefaultNamespace)
    ensures TxtMtrxRepr(3, 3, key, DefaultNamespace) == [[0, 3, 6], [1, 4, 7], [2, 5, 8]]
  {
    CapitalsEncodable(key);
    CapitalMatrix3(key, 'A', 'B', 'C', 'D', 'E', 'F', 'G', 'H', 'I');
    Rows3(TxtMtrxRepr(3, 3, key, DefaultNamespace), [0, 3, 6], [1, 4, 7], [2, 5, 8]);
  }

  /** The key "FJCRXLUDN" as a matrix. */
  lemma TestKeyOf(key: string)
    requires key == "FJCRXLUDN"
    ensures Encodable(key, DefaultNamespace)
    ensures TxtMtrxRepr(3, 3, key, DefaultNamespace) == [[5, 17, 20], [9, 23, 3], [2, 11, 13]]
  {
    CapitalsEncodable(key);
    CapitalMatrix3(key, 'F', 'J', 'C', 'R', 'X', 'L', 'U', 'D', 'N');
    Rows3(TxtMtrxRepr(3, 3, key, DefaultNamespace), [5, 17, 20], [9, 23, 3], [2, 11, 13]);
  }

  /** The text "CODIGO" as a matrix. */
  lemma TestSourceOf(src: string)
    requires src == "CODIGO"
    ensures Encodable(src, DefaultNamespace)
    ensures TxtMtrxRepr(2, 3, src, DefaultNamespace) == [[2, 8], [14, 6], [3, 14]]
  {
    CapitalsEncodable(src);
    CapitalMatrix32(src, 'C', 'O', 'D', 'I', 'G', 'O');
    Rows3(TxtMtrxRepr(2, 3, src, DefaultNamespace), [2, 8], [14, 6], [3, 14]);
  }

  /** The two matrices of the source's cipher test encrypt to "WLPGSE". */
  lemma TestCipherOf(km: Matrix, sm: Matrix, ns: string)
    requires km == [[5, 17, 20], [9, 23, 3], [2, 11, 13]] && sm == [[2, 8], [14, 6], [3, 14]]
    requires ns == DefaultNamespace
    ensures CypherSrcMtrx(km, sm, ns, 3, 2) == "WLPGSE"
  {
    var c0, c1 := Column(sm, 0, 3, 2), Column(sm, 1, 3, 2);
    Row3(c0, 2, 14, 3);
    Row3(c1, 8, 6, 14);
    TestBlock(km, c0, 2, 14, 3, 'W', 'L', 'P');
    TestBlock(km, c1, 8, 6, 14, 'G', 'S', 'E');
    assert HillBlocks(km, sm, ns, 3, 2, 0) == HillBlock(km, c0, ns, 3) + HillBlock(km, c1, ns, 3) + [];
    CypherIsBlockwise(km, sm, ns, 3, 2);
  }

  /** The source's test: encrypting "CODIGO" under the key "FJCRXLUDN"
      gives "WLPGSE". */
  lemma TestCypher(key: string, src: string)
    requires key == "FJCRXLUDN" && src == "CODIGO"
    ensures Encodable(key, DefaultNamespace) && Encodable(src, DefaultNamespace)
    ensures CypherSrcMtrx(TxtMtrxRepr(3, 3, key, DefaultNamespace), TxtMtrxRepr(2, 3, src, DefaultNamespace),
                          DefaultNamespace, 3, 2) == "WLPGSE"
  {
    TestKeyOf(key);
    TestSourceOf(src);
    TestCipherOf(TxtMtrxRepr(3, 3, key, DefaultNamespace), TxtMtrxRepr(2, 3, src, DefaultNamespace), DefaultNamespace);
  }
}
