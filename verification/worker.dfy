/** The pure computations of `Worker`: hashing a batch of candidates, the
    subset-sum row step and the trial-division primality test. */
module Worker {
  import opened Wrappers
  import opened Hex

  /** SHA-256 over the UTF-8 bytes of a string, as Java's `MessageDigest`
      returns it. The digest is not modelled: every operation that hashes
      takes it as a parameter. */
  type Digest = string -> seq<JByte>

  /** `calulateHash`: the digest of `password`, two lowercase hex digits
      per byte. */
  function CalculateHash(digest: Digest, password: string): (h: string)
    ensures |h| == 2 * |digest(password)|
    ensures IsHexText(h)
    ensures HexDecode(h) == digest(password)
  {
    HexDecodeEncode(digest(password));
    HexEncode(digest(password))
  }

  /** Two candidates get the same hash string exactly when the digest maps
      them to the same bytes. */
  lemma CalculateHashInjective(digest: Digest, a: string, b: string)
    ensures CalculateHash(digest, a) == CalculateHash(digest, b) <==> digest(a) == digest(b)
  {
    if CalculateHash(digest, a) == CalculateHash(digest, b) {
      HexEncodeInjective(digest(a), digest(b));
    }
  }

  /** `calculateHashes`: one hash per candidate, aligned index for index. */
  method CalculateHashes(digest: Digest, sixDigitNumbers: seq<string>) returns (calculatedHashes: seq<string>)
    ensures |calculatedHashes| == |sixDigitNumbers|
    ensures forall i :: 0 <= i < |sixDigitNumbers| ==> calculatedHashes[i] == CalculateHash(digest, sixDigitNumbers[i])
  {
    calculatedHashes := [];
    var i := 0;
    while i < |sixDigitNumbers|
      invariant 0 <= i <= |sixDigitNumbers|
      invariant |calculatedHashes| == i
      invariant forall j :: 0 <= j < i ==> calculatedHashes[j] == CalculateHash(digest, sixDigitNumbers[j])
    {
      calculatedHashes := calculatedHashes + [CalculateHash(digest, sixDigitNumbers[i])];
      i := i + 1;
    }
  }

  // ---------------------------------------------------------------------------
  // Primality

  /** `d` divides `n`. Java's truncating `%` and Dafny's Euclidean `%` agree
      on whether the remainder is zero, so this test reads the same in both. */
  predicate Divides(d: int, n: int)
    requires d != 0
  {
    n % d == 0
  }

  /** What `isPrime` checks for an odd `n`: no odd `i >= 3` with `i * i <= n`
      divides it. */
  ghost predicate NoSmallOddDivisor(n: int) {
    forall i :: 3 <= i && i * i <= n && i % 2 == 1 ==> !Divides(i, n)
  }

  /** The textbook notion, used as the reference for `isPrime`. */
  ghost predicate Prime(n: int) {
    2 <= n && forall d :: 2 <= d < n ==> !Divides(d, n)
  }

  lemma SquareMonotone(a: int, b: int)
    requires 0 <= a <= b
    ensures a * a <= b * b
  {
    assert a * a <= a * b <= b * b;
  }

  /** `isPrime`: 1, 2 and 3 are accepted outright, every other even number
      is rejected, and an odd number is accepted when no odd `i` from 3 up to
      its square root divides it. Negative odd numbers fall through the loop
      and are accepted, as in the source. */
  method IsPrime(n: int) returns (r: bool)
    ensures n == 1 || n == 2 || n == 3 ==> r
    ensures n != 2 && n % 2 == 0 ==> !r
    ensures n % 2 != 0 && n != 1 && n != 3 ==> (r <==> NoSmallOddDivisor(n))
  {
    if n == 1 || n == 2 || n == 3 {
      return true;
    }
    if n % 2 == 0 {
      return false;
    }
    var i := 3;
    while i * i <= n
      invariant 3 <= i && i % 2 == 1
      invariant forall j :: 3 <= j < i && j % 2 == 1 ==> !Divides(j, n)
      decreases n - i
    {
      assert i <= i * i;
      if n % i == 0 {
        assert 3 <= i && i * i <= n && i % 2 == 1 && Divides(i, n);
        return false;
      }
      i := i + 2;
    }
    forall j | 3 <= j && j * j <= n && j % 2 == 1
      ensures !Divides(j, n)
    {
      if j >= i {
        SquareMonotone(i, j);
      }
    }
    return true;
  }

  /** For every `n >= 2` the test `isPrime` performs agrees with primality;
      its one departure from primality is that it also accepts 1. */
  lemma IsPrimeTestIsPrimality(n: int)
    requires 2 <= n
    ensures (n == 2 || n == 3 || (n % 2 != 0 && NoSmallOddDivisor(n))) <==> Prime(n)
  {
    if n == 2 || n == 3 {
      assert Prime(n) by {
        forall d | 2 <= d < n ensures !Divides(d, n) {
        }
      }
    } else if n % 2 == 0 {
      assert Divides(2, n);
    } else {
      if NoSmallOddDivisor(n) {
        forall d | 2 <= d < n ensures !Divides(d, n) {
          if Divides(d, n) {
            SmallOddDivisor(n, d);
            assert false;
          }
        }
      } else {
        var i :| 3 <= i && i * i <= n && i % 2 == 1 && Divides(i, n);
        assert 3 * i <= i * i;
        assert 2 <= i < n;
      }
    }
  }

  /** An even factor makes the product even. */
  lemma EvenFactor(a: int, b: int)
    ensures a % 2 == 0 ==> (a * b) % 2 == 0
  {
    if a % 2 == 0 {
      assert a * b == 2 * ((a / 2) * b);
    }
  }

  lemma SquareAtMostProduct(a: int, b: int)
    requires 0 <= a <= b
    ensures a * a <= a * b
  {
  }

  /** An odd divisor of at least 3 with square at most `n` refutes the
      property `isPrime` checks. */
  lemma SmallOddDivisorWitness(n: int, i: int)
    requires 3 <= i && i * i <= n && i % 2 == 1 && Divides(i, n)
    ensures !NoSmallOddDivisor(n)
  {
  }

  /** A non-zero multiple of a positive `q` is at least `q` away from zero. */
  lemma MultipleMagnitude(q: int, x: int)
    requires q > 0 && x != 0
    ensures q * x >= q || q * x <= -q
  {
    if x >= 1 {
      assert q * x >= q * 1;
    } else {
      assert q * x <= q * -1;
    }
  }

  /** A multiple of `q` leaves remainder zero. */
  lemma MultipleIsDivisible(n: int, q: int, k: int)
    requires q > 0 && n == q * k
    ensures Divides(q, n)
  {
    var m := n / q;
    assert n == q * m + n % q;
    assert q * (k - m) == n % q;
    if k != m {
      MultipleMagnitude(q, k - m);
    }
  }

  /** A proper divisor `d` of `n >= 2` leaves a cofactor of at least 2. */
  lemma Cofactor(n: int, d: int) returns (q: int)
    requires 2 <= d < n && Divides(d, n)
    ensures n == d * q && 2 <= q && Divides(q, n)
  {
    q := n / d;
    assert n == d * q;
    if q != 1 && q != 0 {
      MultipleMagnitude(d, q);
    }
    MultipleIsDivisible(n, q, d);
  }

  /** An odd composite number has an odd divisor of at least 3 whose square
      does not exceed it. */
  lemma SmallOddDivisor(n: int, d: int)
    requires 2 <= d < n && n % 2 != 0 && Divides(d, n)
    ensures !NoSmallOddDivisor(n)
  {
    var q := Cofactor(n, d);
    EvenFactor(d, q);
    EvenFactor(q, d);
    assert d % 2 == 1 && q % 2 == 1;
    if d <= q {
      SquareAtMostProduct(d, q);
      SmallOddDivisorWitness(n, d);
    } else {
      SquareAtMostProduct(q, d);
      assert q * d == n;
      SmallOddDivisorWitness(n, q);
    }
  }

  // ---------------------------------------------------------------------------
  // Subset-sum table row

  /** One cell of the reachability table: `None` is Java's `null` (the index
      is not reachable yet); `Some(summands)` lists the values that reach it. */
  type Cell = Option<seq<int>>

  function Sum(s: seq<int>): int {
    if |s| == 0 then 0 else Sum(s[..|s| - 1]) + s[|s| - 1]
  }

  /** Every reachable cell of `row` holds summands that add up to its
      table index, the table starting at `offset`. */
  ghost predicate SumsMatchIndex(row: seq<Cell>, offset: int) {
    forall k :: 0 <= k < |row| && row[k].Some? ==> Sum(row[k].value) == offset + k
  }

  /** The exceptions `calculateNewRow` can throw. */
  datatype RowFault =
    | IllegalArgument    // `Collections.nCopies` with a negative count
    | IndexOutOfBounds   // `previousRow.get` outside the list

  /** Every index `calculateNewRow` reads lies inside `previousRow`: each
      `i` of the slice, and `i - password` when cell `i` is unreachable and
      `i - password` is not negative. */
  predicate RowReadsInRange(previousRow: seq<Cell>, password: int, startIndex: int, endIndex: int) {
    forall i :: startIndex <= i < endIndex ==> ReadsInRangeAt(previousRow, password, i)
  }

  /** The reads for cell `i` lie inside `previousRow`. */
  predicate ReadsInRangeAt(previousRow: seq<Cell>, password: int, i: int) {
    && 0 <= i < |previousRow|
    && (previousRow[i].None? && 0 <= i - password ==> i - password < |previousRow|)
  }

  /** Cell `i` of the next row: a reachable cell keeps its summands; an
      unreachable cell becomes reachable when cell `i - password` was, with
      `password` appended to its summands; any other cell stays
      unreachable. */
  function NewCell(previousRow: seq<Cell>, password: int, i: int): Cell
    requires ReadsInRangeAt(previousRow, password, i)
  {
    if previousRow[i].Some? then previousRow[i]
    else if 0 <= i - password && previousRow[i - password].Some? then Some(previousRow[i - password].value + [password])
    else None
  }

  /** `calculateNewRow`: the cells `[startIndex, endIndex)` of the next row
      of the table after admitting `password` as a summand. A reachable cell
      keeps its summands; an unreachable cell `i` becomes reachable when the
      cell `i - password` was, with `password` appended to its summands; any
      other cell stays unreachable. A negative slice length throws
      `IllegalArgumentException`, a read outside the list
      `IndexOutOfBoundsException`. */
  method CalculateNewRow(previousRow: seq<Cell>, password: int, startIndex: int, endIndex: int)
    returns (r: Result<seq<Cell>, RowFault>)
    ensures endIndex < startIndex ==> r == Failure(IllegalArgument)
    ensures startIndex <= endIndex ==>
      (r.Success? <==> RowReadsInRange(previousRow, password, startIndex, endIndex))
    ensures startIndex <= endIndex && r.Failure? ==> r.error == IndexOutOfBounds
    ensures r.Success? ==> |r.value| == endIndex - startIndex
    ensures r.Success? ==> forall i :: startIndex <= i < endIndex ==>
      r.value[i - startIndex] == NewCell(previousRow, password, i)
    ensures r.Success? && SumsMatchIndex(previousRow, 0) ==> SumsMatchIndex(r.value, startIndex)
  {
    if endIndex < startIndex {
      return Failure(IllegalArgument);
    }
    var currentRow: seq<Cell> := [];
    var i := startIndex;
    while i < endIndex
      invariant startIndex <= i <= endIndex
      invariant RowReadsInRange(previousRow, password, startIndex, i)
      invariant |currentRow| == i - startIndex
      invariant forall j :: startIndex <= j < i ==> currentRow[j - startIndex] == NewCell(previousRow, password, j)
      invariant SumsMatchIndex(previousRow, 0) ==> SumsMatchIndex(currentRow, startIndex)
    {
      if i < 0 || |previousRow| <= i {
        assert !ReadsInRangeAt(previousRow, password, i);
        return Failure(IndexOutOfBounds);
      }
      var cell: Cell := None;
      if previousRow[i].None? {
        if i - password >= 0 {
          if |previousRow| <= i - password {
            assert !ReadsInRangeAt(previousRow, password, i);
            return Failure(IndexOutOfBounds);
          }
          if previousRow[i - password].Some? {
            var temp := previousRow[i - password].value + [password];
            assert Sum(temp) == Sum(previousRow[i - password].value) + password by {
              assert temp[..|temp| - 1] == previousRow[i - password].value;
            }
            cell := Some(temp);
          }
        }
      } else {
        cell := previousRow[i];
      }
      assert ReadsInRangeAt(previousRow, password, i);
      currentRow := currentRow + [cell];
      i := i + 1;
    }
    return Success(currentRow);
  }
}
