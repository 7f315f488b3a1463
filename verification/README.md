# Complex numbers and complex matrices of math-langtest, in Dafny

This project models the Java core of math-langtest:

- **The `Complex` value class, in both of its drafts.**
  - `languages/jmath/Complex.java` reads imaginary coefficients with a fractional part.
  - The root `Complex.java` reads integer coefficients only. It is the draft `Matrix` uses.
  - The model covers the class's constants and arithmetic, `toString`, and `parseComplex`. `parseComplex` is modelled together with the regular expression it uses to cut out the imaginary term.
- **The `Matrix` class.** The model covers:
  - the constructors;
  - `getValue` and `setValue`;
  - `add` and the two `multiply` methods;
  - `readMatrix` and `readNums`, with the console replaced by a sequence of input lines;
  - `toString`.

Modules:

- `Wrappers`: `Option`, `Result` and the Java exceptions as an `Error` datatype.
- `Decimal`: the two library calls the class relies on, on exact reals.
  - `Render` stands for `Double.toString` in plain notation.
  - `Parse` stands for `Double.parseDouble`.
- `ImagPattern`: the two regular expressions `[+-]?([0-9]+[.]?[0-9]*)?i` and `[+-]?([0-9]+)?i`. The module gives:
  - the leftmost match (`Matcher.find`);
  - `String.replaceAll` of every match by nothing;
  - `replaceAll("i", "")`.
- `ComplexNumbers`: the arithmetic. Addition, subtraction, multiplication, division, conjugate, scaling, `pow` and the modulus are shared by both drafts; negate, reciprocal and equals come from the languages/jmath draft only.
- `ComplexText`: `toString` and `parseComplex` of both drafts.
- `Tokenizer`: the tokens `java.util.Scanner.next()` returns for one line.
- `Matrices`: the `Matrix` class.
- `ParseExamples`: `parseComplex` worked through on concrete texts.

Java doubles are modelled as exact reals.

- A Java `null` is `None`.
- A method that throws returns `Err` with the exception's kind.
- A method that mutates a `Matrix` returns the new value instead.

## Model

| member | source | states |
|---|---|---|
| ComplexNumbers.AddLaws | languages/jmath/Complex.java:149-151 | add is associative, and subtracting the addend again gives back the first operand |
| ComplexNumbers.AddReal | languages/jmath/Complex.java:161-163 | adding a double is adding the complex number (s, 0) |
| ComplexNumbers.AddCommutes | Complex.java:105-107 | add is commutative and ZERO is its identity |
| ComplexNumbers.Subtract | languages/jmath/Complex.java:173-175 | the difference plus the subtrahend gives back the minuend |
| ComplexNumbers.SubtractReal | Complex.java:141-143 | subtracting a double is subtracting (s, 0) |
| ComplexNumbers.SubtractSelf | Complex.java:129-131 | a - a is ZERO, and adding it to a leaves a |
| ComplexNumbers.Conjugate | Complex.java:150-152 | the real part is kept; a number plus its conjugate is the real number 2·re, which fixes the imaginary part as -im; a number times its conjugate is the real number re² + im² |
| ComplexNumbers.Negate | languages/jmath/Complex.java:244-246 | the negation is the additive inverse |
| ComplexNumbers.Involutions | languages/jmath/Complex.java:194-196 | conjugating twice and negating twice give the number back |
| ComplexNumbers.MultiplyReal | Complex.java:193-195 | multiplying by a double is multiplying by (s, 0) |
| ComplexNumbers.MultiplyIdentity | languages/jmath/Complex.java:36-48 | ONE is a two-sided identity of multiply and ZERO absorbs on both sides |
| ComplexNumbers.MultiplyCommutes | Complex.java:180-183 | multiply is commutative |
| ComplexNumbers.MultiplyAssociates | languages/jmath/Complex.java:222-225 | multiply is associative |
| ComplexNumbers.MultiplyDistributes | languages/jmath/Complex.java:222-225 | multiply distributes over add |
| ComplexNumbers.MultiplyNormSq | Complex.java:180-183 | the squared modulus of a product is the product of the squared moduli |
| ComplexNumbers.ISquared | languages/jmath/Complex.java:48 | I times I is the negation of ONE |
| ComplexNumbers.Divide | Complex.java:166-170 | for a nonzero divisor, the quotient times the divisor gives back the dividend |
| ComplexNumbers.Reciprocal | languages/jmath/Complex.java:272-274 | a number times its reciprocal is ONE |
| ComplexNumbers.Equals | languages/jmath/Complex.java:133-139 | equals holds exactly when both parts are equal |
| ComplexNumbers.Ceiling | Complex.java:210 | the loop bound is the least integer not below x |
| ComplexNumbers.Pow | Complex.java:205-214 | an exponent below 1 is an IllegalArgumentException; otherwise the result is the number to the power ⌈x⌉ |
| ComplexNumbers.PowExamples | languages/jmath/Complex.java:256-265 | pow(1) is the number, pow(2) its square, and pow(0) is refused |
| ComplexNumbers.PowerAdd | Complex.java:209-213 | exponents add: a^(m+n) = a^m · a^n |
| ComplexNumbers.PowerOfProduct | Complex.java:205-214 | the power of a product is the product of the powers, for the reference meaning of pow's loop |
| ComplexNumbers.PowerNormSq | languages/jmath/Complex.java:260-264 | the squared modulus of a^n is the n-th power of the squared modulus |
| Decimal.ParseUnsignedAccepts | languages/jmath/Complex.java:350 | the unsigned reader accepts exactly the numerals made of digits with at most one '.' and at least one digit |
| Decimal.ParseAccepts | Complex.java:292 | parseDouble succeeds exactly on trimmed texts that are an optional sign and an unsigned numeral |
| Decimal.Scale | languages/jmath/Complex.java:294 | the number of fraction digits written is the fewest, from 1 up, that write the value exactly; MaxScale when none up to it does |
| Decimal.RenderUnsigned | languages/jmath/Complex.java:304 | the text of a magnitude has at least one integer digit, one '.', and Scale fraction digits |
| Decimal.ParseSigned | languages/jmath/Complex.java:350 | a leading '-' negates the value of the text after it, a leading '+' keeps it, and a signed text that is not a number stays refused |
| Decimal.RoundTrip | languages/jmath/Complex.java:294 | parseDouble reads back the text toString writes for a value with a plain decimal form |
| Decimal.SignedRoundTrip | languages/jmath/Complex.java:342-350 | a '+' or '-' in front of a rendered magnitude is read as that sign |
| ImagPattern.MatchAtIsTerm | languages/jmath/Complex.java:333 | the pattern matches s[p..e] at p exactly when that slice is an optional sign, an optional coefficient and an 'i' |
| ImagPattern.TermIsMatch | Complex.java:275 | a term of the integer or decimal grammar is matched at its start, up to its end |
| ImagPattern.Find | languages/jmath/Complex.java:341 | find returns the leftmost start at or after `from` where the pattern matches, and None only if it matches nowhere |
| ImagPattern.ReplaceAll | Complex.java:279 | the result contains no 'i', and a text without an 'i' is left unchanged |
| ImagPattern.ReplaceOnce | languages/jmath/Complex.java:337 | with a single match (b, e), replaceAll keeps exactly what lies before and after it |
| ImagPattern.ReplaceAllAppend | languages/jmath/Complex.java:337 | when t ends in 'i', replaceAll on t + u is replaceAll on t followed by replaceAll on u: no match spans the 'i', and the matches are removed one after another |
| ImagPattern.Without | languages/jmath/Complex.java:342 | replaceAll("i", "") leaves no 'i' and changes a text without one not at all |
| ImagPattern.WithoutFinalI | Complex.java:284 | removing the 'i' from a matched term leaves its sign and coefficient |
| ComplexText.SignText | languages/jmath/Complex.java:295-299 | '+' exactly for a positive imaginary part, '-' for a negative one, nothing for zero |
| ComplexText.Tail | Complex.java:234-245 | the text after the real part is empty exactly when the imaginary part is zero, and otherwise starts with a sign and ends with 'i' |
| ComplexText.ToStringCases | Complex.java:232-247 | a zero imaginary part leaves the real part alone; ±1 appends "+i" or "-i"; any other value appends its sign, the rendering of its magnitude and an 'i' |
| ComplexText.RenderShape | Complex.java:233 | the text of a double is at least two characters: a '-' or a digit, then only digits and '.', ending in a digit |
| ComplexText.ToString | languages/jmath/Complex.java:292-308 | the text starts with the real part's rendering and mentions 'i' exactly when the imaginary part is nonzero |
| ComplexText.RealText | Complex.java:279-282 | the real text is nonempty and free of 'i' |
| ComplexText.ParseComplex | languages/jmath/Complex.java:325-355 | parsing succeeds exactly on a non-null text without a space whose real text parseDouble accepts; every failure is a NumberFormatException |
| ComplexText.UnitCoefficientValue | Complex.java:283-290 | a bare '+' or an empty coefficient is read as 1 and a bare '-' as -1; any other coefficient is kept as written |
| ComplexText.ImagTextParses | languages/jmath/Complex.java:341-348 | the imaginary text always parses, so only the real text can make parseComplex fail |
| ComplexText.RoundTrip | languages/jmath/Complex.java:292-355 | parseComplex reads back every text toString writes, for parts with a plain decimal form and an imaginary part that is zero or has a magnitude in [10^-3, 10^7) |
| ComplexText.LegacyRoundTrip | Complex.java:232-297 | the root draft reads back toString's text when the imaginary part is 0 or ±1 |
| ComplexText.LegacyCannotReadBack | Complex.java:275-279 | the root draft refuses toString's text for every other imaginary part |
| Tokenizer.WordEnd | Matrix.java:111 | next() stops at the first whitespace after its start |
| Tokenizer.Tokens | Matrix.java:110-114 | every token next() returns is nonempty and free of whitespace |
| Tokenizer.TokensOfJoin | Matrix.java:106-114 | tokens written with whitespace between them are read back one by one, in order |
| Matrices.FromArray | Matrix.java:14-16 | the constructor succeeds exactly on a nonempty array; m is the number of rows and n the length of the first |
| Matrices.RectangularValid | Matrix.java:8-16 | a rectangular matrix satisfies the class invariant |
| Matrices.GetValue | Matrix.java:33-38 | indices at or past m or n fail the guard with an IndexOutOfBoundsException; indices that pass the guard but are negative or past the row fail in the array with an ArrayIndexOutOfBoundsException; otherwise the cell is returned |
| Matrices.GetValueRectangular | Matrix.java:33-38 | on a rectangular matrix, getValue succeeds exactly for indices in [0, m) × [0, n) |
| Matrices.SetValue | Matrix.java:40-45 | fails exactly where getValue fails, and changes only the named cell, keeping every row length |
| Matrices.GetAfterSet | Matrix.java:40-45 | after setValue, reading the cell gives the new value, reading any other cell gives the old one, and the invariants hold |
| Matrices.Add | Matrix.java:47-58 | unequal shapes are a MismatchDimensionException; equal shapes fail only with an ArrayIndexOutOfBoundsException (a row too short, or no rows); otherwise cell (i, j) is the sum of the two cells |
| Matrices.AddRectangular | Matrix.java:47-58 | two rectangular matrices of one shape add to a rectangular matrix, in either order |
| Matrices.MultiplyScalar | Matrix.java:60-68 | every cell is multiplied by the double; a short row is an ArrayIndexOutOfBoundsException |
| Matrices.ScaleLaws | Matrix.java:60-68 | scaling a rectangular matrix never fails; scaling by 1 changes nothing; scaling by s and then t is scaling by s·t |
| Matrices.MultiplyStub | Matrix.java:70-81 | this.n ≠ multand.m is a MismatchDimensionException; otherwise the result has this.n rows of multand.m cells |
| Matrices.StubShape | Matrix.java:71-74 | the method fails exactly where the product is undefined, but its result has the product's shape only for square factors |
| Matrices.StubShapeExample | Matrix.java:74 | a 2 × 3 times a 3 × 4 matrix yields a 3 × 3 array where the product is 2 × 4 |
| Matrices.Product | Matrix.java:70-73 | the product is defined exactly when this.n = multand.m; it is m × multand.n, and cell (i, j) sums row i against column j |
| Matrices.ProductIdentity | Matrix.java:70-81 | the identity matrix is neutral on both sides of the product |
| Matrices.ParseAll | Matrix.java:110-114 | succeeds exactly when every text parses, and keeps them in order; otherwise it returns the first failure |
| Matrices.ReadNums | Matrix.java:105-122 | a line without a token is a NoSuchElementException; otherwise one number per token, or a NumberFormatException |
| Matrices.FirstEmpty | Matrix.java:90-95 | the loop stops at the first empty line |
| Matrices.ReadLines | Matrix.java:90-95 | reads the lines before the first empty one, in order; the first line that fails to read decides the exception; if every line before it reads but the input runs out first, it is a NoSuchElementException |
| Matrices.ReadMatrix | Matrix.java:83-103 | succeeds exactly when at least one row is read; no rows fails at mtx[0]; an exception while reading the lines propagates unchanged; the result satisfies the class invariant |
| Matrices.ReadMatrixChecked | Matrix.java:83-103 | a row of the wrong length is a MismatchDimensionException; an exception of readMatrix propagates unchanged; otherwise the result equals readMatrix's and is rectangular |
| Matrices.RaggedAccepted | Matrix.java:96-102 | readMatrix accepts a shorter second row; getValue then passes its guard and still fails, add fails, and the checked reader refuses the input |
| Matrices.RaggedExample | Matrix.java:83-103 | the lines "1.0 1.0", "1.0", "" give a 2 × 2 matrix whose cell (1, 1) does not exist |
| Matrices.ReadNumsReadBack | Matrix.java:105-122 | readNums reads back a line of cell texts written by toString, when the root draft can parse each one |
| Matrices.ReadMatrixReadBack | Matrix.java:83-103 | readMatrix reads back the rows typed in as lines of cell texts followed by an empty line |
| Matrices.CellIsToken | Matrix.java:130 | a cell's text is a single Scanner token |
| Matrices.RowLineReadBack | Matrix.java:128-133 | the cells between a row's bars split back into their texts, and the jmath parser reads each back when its imaginary part is written without an exponent |
| Matrices.LinesAppend | Matrix.java:126-134 | the text of rows a followed by rows b is a's text followed by b's: each row contributes its own line, in row order |
| Matrices.PaddedJoin | Matrix.java:129-132 | writing each cell with two spaces after it and cutting the last two characters is joining the cells with two spaces |
| Matrices.ToString | Matrix.java:124-136 | with nonempty rows, the text is one line per row in order: "|", the cells joined by two spaces, "|\n"; an empty first row is a StringIndexOutOfBoundsException |
| ParseExamples.LayoutParses | languages/jmath/Complex.java:333-350 | a real numeral followed by a signed term parses as its two numerals |
| ParseExamples.ThreePlusTwoI | Complex.java:267-297 | "3+2i" is 3 + 2i under both drafts |
| ParseExamples.MinusI | languages/jmath/Complex.java:343-345 | "-i" is -i, because a bare sign stands for 1 |
| ParseExamples.BareIText | Complex.java:285-287 | "i" is i, because an empty coefficient stands for 1 |
| ParseExamples.MinusFourI | Complex.java:267-297 | "-4i" is -4i, with the real text defaulting to "0" |
| ParseExamples.RealOnly | languages/jmath/Complex.java:337-348 | a text without an 'i' is all real part, and its imaginary text is "0" |
| ParseExamples.Five | Complex.java:279-290 | "5" is 5 + 0i |
| ParseExamples.Empty | languages/jmath/Complex.java:338-340 | the empty text is ZERO |
| ParseExamples.DecimalParts | languages/jmath/Complex.java:333 | "2.5-3.75i" is 2.5 - 3.75i under the decimal pattern |
| ParseExamples.FractionRefused | Complex.java:275-279 | the root draft refuses "1+2.5i": it removes only "5i" and leaves "1+2." |

## Left out

- Floating point: components are exact reals. IEEE rounding, NaN, the infinities and -0.0 are not modelled.
  - `equals` compares `Double` objects, so it also separates 0.0 from -0.0 and equates NaN with itself; neither matters on reals.
- `abs()` is not modelled, because it needs a square root. `NormSq` stands for its square.
- `valueOf`, `getReal` and `getImaginary` only build a value or read a field. They are the datatype's constructor and fields.
- ComplexNumbers.Divide: requires a nonzero divisor. Java yields NaN components for a zero divisor.
- ComplexNumbers.Reciprocal: requires a nonzero number, for the same reason.
- ComplexNumbers.Pow: requires x ≤ 2147483647. For a larger x the `int` loop counter wraps around and the loop never ends.
- Decimal.Parse: leaves out exponents, hexadecimal, `NaN`, `Infinity` and the `d`/`f` suffixes that `Double.parseDouble` also accepts.
- Decimal.Render: writes plain notation with at most MaxScale (20) fraction digits. `Double.toString` switches to scientific notation outside [10^-3, 10^7) and writes the shortest digits that identify the double. The round trips require `Representable`, the values Render writes exactly.
- ComplexText.RoundTrip: requires the imaginary part to be zero or of magnitude in [10^-3, 10^7). Outside that range `Double.toString` writes an exponent, as in "1.0+1.0E-4i". The pattern then matches only "-4i", the real text "1.0+1.0E" fails `parseDouble`, and `parseComplex` throws. A real part in exponent form is read back by `parseDouble` in Java, but the model's Render writes it in plain notation.
- `s.strip()` in `parseComplex` discards its result, so it has no effect and is not modelled.
- Console I/O is replaced by parameters:
  - `readMatrix`'s `Scanner(System.in)` becomes a sequence of input lines;
  - the prompt printed with `System.out.println` is left out;
  - the no-argument constructor `Matrix()` only copies readMatrix's result.
- `getM`/`getN` are the datatype's fields `m` and `n`.
- Matrices.SetValue: returns the updated matrix instead of mutating the array in place. Other holders of the same array would also see a change in Java.
- Matrices.MultiplyStub: keeps only the shape of the array multiply(Matrix) returns. The cells of that array are Java nulls, and the TODO body never fills them.
- Matrices.Product: requires rectangular factors. Matrices.Identity: requires size ≥ 1.
- Matrices.Add and Matrices.MultiplyScalar: do not model null cells. A NullPointerException cannot arise from the matrices the model builds.
- Matrices.ToString: does not describe the text for an empty row after the first. `substring` then succeeds and cuts into the previous line.
- `MismatchDimensionException.java` is not part of this model. It appears only as the error kind `MismatchDimension`.
- `BigComplex.java` and the Go files are not part of this model.

## Findings

| source | as written | input that shows it | evidently intended | confidence | as-written member | corrected member |
|---|---|---|---|---|---|---|
| Complex.java:275-279 | the coefficient group `([0-9]+)?` admits integers only, but toString always writes a '.' in the magnitude | the value 1.0 + 2.5i, whose text "1.0+2.5i" gives real text "1.0+2." and a NumberFormatException | parseComplex reads back what toString writes, as the jmath draft's pattern `([0-9]+[.]?[0-9]*)?` does | not executed | ComplexText.LegacyCannotReadBack | ComplexText.RoundTrip |
| Matrix.java:74-76 | the result array is `new Complex[this.n][multand.m]` | a 2 × 3 matrix times a 3 × 4 matrix gives a 3 × 3 array | a this.m × multand.n array holding the product | not executed | Matrices.StubShapeExample | Matrices.ProductIdentity |
| Matrix.java:90-102 | readMatrix takes n from the first row and never compares the other rows with it | the lines "1.0 1.0", "1.0", "" give m = 2, n = 2 with a one-cell second row | rows of unequal length are refused | not executed | Matrices.RaggedExample | Matrices.ReadMatrixChecked |
