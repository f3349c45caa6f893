/** The six-digit password keyspace that `Profiler.begin` generates, the
    batches it is cut into, and `Integer.parseInt` for reading a cracked
    password back as a number. */
module Keyspace {
  import opened Wrappers
  import opened Chars
  import opened JavaInt

  /** The size of the keyspace: the six-digit numbers 000000 to 999999. */
  const KeyspaceSize: nat := 1000000

  /** The number of candidates in one `WorkMessagePasswordCracking`. */
  const BatchSize: nat := 100

  function Pow10(w: nat): (p: nat)
    ensures 1 <= p
  {
    if w == 0 then 1 else 10 * Pow10(w - 1)
  }

  predicate AllDecimalDigits(s: string) {
    forall k :: 0 <= k < |s| ==> IsDecimalDigit(s[k])
  }

  /** The value of a string of decimal digits, most significant first. */
  function DecimalValue(s: string): (v: nat)
    requires AllDecimalDigits(s)
    ensures v < Pow10(|s|)
  {
    if |s| == 0 then 0 else DecimalValue(s[..|s| - 1]) * 10 + DigitValue(s[|s| - 1])
  }

  /** `String.format("%0<width>d", i)` for an `i` that fits in `width`
      digits: the decimal digits of `i`, padded on the left with zeros. */
  function ZeroPadded(i: nat, width: nat): (s: string)
    requires i < Pow10(width)
    ensures |s| == width
    ensures AllDecimalDigits(s)
  {
    if width == 0 then [] else ZeroPadded(i / 10, width - 1) + [DigitChar(i % 10)]
  }

  /** Reading a zero-padded number back gives the number. */
  lemma {:induction false} ZeroPaddedRoundTrip(i: nat, width: nat)
    requires i < Pow10(width)
    ensures DecimalValue(ZeroPadded(i, width)) == i
  {
    if width > 0 {
      var s := ZeroPadded(i, width);
      ZeroPaddedRoundTrip(i / 10, width - 1);
      assert s[..|s| - 1] == ZeroPadded(i / 10, width - 1);
      DigitValueOfDigitChar(i % 10);
    }
  }

  /** `s` is the decimal text of `v`: an optional `+` or `-` followed by at
      least one decimal digit. */
  predicate IsIntegerText(s: string, v: int) {
    || (0 < |s| && AllDecimalDigits(s) && v == DecimalValue(s))
    || (&& 1 < |s| && (s[0] == '-' || s[0] == '+') && AllDecimalDigits(s[1..])
        && v == (if s[0] == '-' then -(DecimalValue(s[1..]) as int) else DecimalValue(s[1..])))
  }

  /** `Integer.parseInt(s)`: an optional `+` or `-` followed by at least one
      decimal digit, the value fitting a Java `int`; anything else throws
      `NumberFormatException`, modelled as `None`. */
  function ParseInt(s: string): (r: Option<int>)
    ensures r.Some? ==> -IntMax - 1 <= r.value <= IntMax
    ensures r.Some? ==> IsIntegerText(s, r.value)
    ensures forall v :: IsIntegerText(s, v) && -IntMax - 1 <= v <= IntMax ==> r == Some(v)
    ensures AllDecimalDigits(s) && 0 < |s| && DecimalValue(s) <= IntMax ==> r == Some(DecimalValue(s))
    ensures |s| == 0 ==> r.None?
  {
    if |s| == 0 then None
    else if (s[0] == '-' || s[0] == '+') && 1 < |s| && AllDecimalDigits(s[1..]) then
      var v: int := if s[0] == '-' then -(DecimalValue(s[1..]) as int) else DecimalValue(s[1..]);
      if -IntMax - 1 <= v <= IntMax then Some(v) else None
    else if AllDecimalDigits(s) && DecimalValue(s) <= IntMax then Some(DecimalValue(s))
    else None
  }

  /** Entry `i` of the keyspace: `String.format("%06d", i)`. */
  function SixDigit(i: nat): (s: string)
    requires i < KeyspaceSize
    ensures |s| == 6 && AllDecimalDigits(s)
    ensures ParseInt(s) == Some(i)
  {
    assert Pow10(6) == KeyspaceSize;
    ZeroPaddedRoundTrip(i, 6);
    ZeroPadded(i, 6)
  }

  /** `calculateSixDigitNumbers`: the whole keyspace in increasing order.
      Entry `i` is six digits long and reads back as `i`; so no entry occurs
      twice. */
  function SixDigitNumbers(): (keyspace: seq<string>)
    ensures |keyspace| == KeyspaceSize
    ensures forall i :: 0 <= i < KeyspaceSize ==>
      |keyspace[i]| == 6 && AllDecimalDigits(keyspace[i]) && ParseInt(keyspace[i]) == Some(i)
  {
    seq(KeyspaceSize, i requires 0 <= i < KeyspaceSize => SixDigit(i))
  }

  lemma SixDigitNumbersDistinct(i: int, j: int)
    requires 0 <= i < j < KeyspaceSize
    ensures SixDigitNumbers()[i] != SixDigitNumbers()[j]
  {
  }

  // ---------------------------------------------------------------------------
  // Batching

  /** The loop in `begin`: consecutive slices of `BatchSize` elements, in
      order. The keyspace divides evenly, so `Arrays.copyOfRange` never pads. */
  function Batches<T>(s: seq<T>): (batches: seq<seq<T>>)
    requires |s| % BatchSize == 0
    ensures |batches| * BatchSize == |s|
    ensures forall k :: 0 <= k < |batches| ==> |batches[k]| == BatchSize
    decreases |s|
  {
    if |s| == 0 then [] else [s[..BatchSize]] + Batches(s[BatchSize..])
  }

  function Flatten<T>(ss: seq<seq<T>>): seq<T> {
    if |ss| == 0 then [] else ss[0] + Flatten(ss[1..])
  }

  /** Gluing the batches back together gives the original sequence. */
  lemma {:induction false} FlattenBatches<T>(s: seq<T>)
    requires |s| % BatchSize == 0
    ensures Flatten(Batches(s)) == s
    decreases |s|
  {
    if |s| > 0 {
      FlattenBatches(s[BatchSize..]);
      assert s == s[..BatchSize] + s[BatchSize..];
    }
  }

  /** Batch `k` is the slice starting at `k * BatchSize`. */
  lemma {:induction false} BatchAt<T>(s: seq<T>, k: nat)
    requires |s| % BatchSize == 0 && k < |Batches(s)|
    ensures k * BatchSize + BatchSize <= |s|
    ensures Batches(s)[k] == s[k * BatchSize .. k * BatchSize + BatchSize]
    decreases k
  {
    if k > 0 {
      BatchAt(s[BatchSize..], k - 1);
    }
  }

  /** The keyspace as `begin` submits it: 10,000 batches of 100 candidates;
      batch `k` holds the candidates `100 * k` to `100 * k + 99`, and the
      batches together are exactly the keyspace. */
  lemma KeyspaceBatches()
    ensures |Batches(SixDigitNumbers())| == 10000
    ensures Flatten(Batches(SixDigitNumbers())) == SixDigitNumbers()
    ensures forall k, j :: 0 <= k < 10000 && 0 <= j < BatchSize ==>
      ParseInt(Batches(SixDigitNumbers())[k][j]) == Some(BatchSize * k + j)
  {
    var keyspace := SixDigitNumbers();
    var batches := Batches(keyspace);
    FlattenBatches(keyspace);
    forall k, j | 0 <= k < 10000 && 0 <= j < BatchSize
      ensures ParseInt(batches[k][j]) == Some(BatchSize * k + j)
    {
      BatchElement(keyspace, k, j);
    }
  }

  /** Element `j` of batch `k` is element `k * BatchSize + j` of the input. */
  lemma BatchElement<T>(s: seq<T>, k: nat, j: nat)
    requires |s| % BatchSize == 0 && k < |Batches(s)| && j < BatchSize
    ensures k * BatchSize + j < |s|
    ensures Batches(s)[k][j] == s[k * BatchSize + j]
  {
    BatchAt(s, k);
  }
}
