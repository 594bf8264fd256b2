/**
 * Frequency tabulation (`reset_count` and `count_symbols` in src/encode.c).
 * The static `symbol_count` table is an `array<nat>` of NSYMBOLS entries handed
 * to the methods; the file being read is the byte sequence `input`.
 */
module SymbolCount {
  import opened HuffmanNode

  /** One input byte (`unsigned char`). */
  newtype byte = x: int | 0 <= x < 256

  /** Number of occurrences of `b` in `input`, counted front to back as the reading loop does. */
  function Occurrences(input: seq<byte>, b: int): nat {
    if input == [] then 0
    else Occurrences(input[..|input| - 1], b) + (if input[|input| - 1] as int == b then 1 else 0)
  }

  /** The frequency table of `input`: entry `b` counts the bytes equal to `b`. */
  function Histogram(input: seq<byte>): seq<nat> {
    seq(NSYMBOLS, b => Occurrences(input, b))
  }

  /** Sum of a table of counts. */
  function Sum(s: seq<nat>): nat {
    if s == [] then 0 else Sum(s[..|s| - 1]) + s[|s| - 1]
  }

  /** `symbol_count[i] = 0` for every entry. */
  method ResetCount(symbolCount: array<nat>)
    requires symbolCount.Length == NSYMBOLS
    modifies symbolCount
    ensures forall i :: 0 <= i < NSYMBOLS ==> symbolCount[i] == 0
  {
    for i := 0 to NSYMBOLS
      invariant forall j :: 0 <= j < i ==> symbolCount[j] == 0
    {
      symbolCount[i] := 0;
    }
  }

  /** `++symbol_count[buf]` for each byte `buf` read, in order. */
  method CountSymbols(symbolCount: array<nat>, input: seq<byte>)
    requires symbolCount.Length == NSYMBOLS
    modifies symbolCount
    ensures forall b :: 0 <= b < NSYMBOLS ==> symbolCount[b] == old(symbolCount[b]) + Occurrences(input, b)
  {
    var i := 0;
    while i < |input|
      invariant 0 <= i <= |input|
      invariant forall b :: 0 <= b < NSYMBOLS ==> symbolCount[b] == old(symbolCount[b]) + Occurrences(input[..i], b)
    {
      var buf := input[i];
      assert input[..i + 1][..i] == input[..i];
      symbolCount[buf] := symbolCount[buf] + 1;
      i := i + 1;
    }
    assert input[..i] == input;
  }

  /** A byte is counted at all exactly when it occurs in the input. */
  lemma {:induction false} OccurrencesPositive(input: seq<byte>, b: byte)
    ensures Occurrences(input, b as int) > 0 <==> b in input
  {
    if input != [] {
      var init := input[..|input| - 1];
      OccurrencesPositive(init, b);
      assert input == init + [input[|input| - 1]];
      assert b in input <==> b in init || b == input[|input| - 1];
    }
  }

  /** Adding one to an entry adds one to the sum. */
  lemma {:induction false} SumIncrement(s: seq<nat>, x: nat)
    requires x < |s|
    ensures Sum(s[x := s[x] + 1]) == Sum(s) + 1
  {
    var t := s[x := s[x] + 1];
    if x == |s| - 1 {
      assert t[..|t| - 1] == s[..|s| - 1];
    } else {
      assert t[..|t| - 1] == s[..|s| - 1][x := s[x] + 1];
      SumIncrement(s[..|s| - 1], x);
    }
  }

  /** The entries of the frequency table add up to the input length. */
  lemma {:induction false} HistogramSum(input: seq<byte>)
    ensures Sum(Histogram(input)) == |input|
  {
    if input == [] {
      SumZeros(Histogram(input));
    } else {
      var init := input[..|input| - 1];
      var last := input[|input| - 1] as int;
      HistogramSum(init);
      assert Histogram(input) == Histogram(init)[last := Histogram(init)[last] + 1];
      SumIncrement(Histogram(init), last);
    }
  }

  lemma {:induction false} SumZeros(s: seq<nat>)
    requires forall i :: 0 <= i < |s| ==> s[i] == 0
    ensures Sum(s) == 0
  {
    if s != [] {
      SumZeros(s[..|s| - 1]);
    }
  }

  /** The table is all zeros exactly when the input is empty. */
  lemma HistogramZero(input: seq<byte>)
    ensures (forall b :: 0 <= b < NSYMBOLS ==> Histogram(input)[b] == 0) <==> input == []
  {
    if input != [] {
      OccurrencesPositive(input, input[0]);
      assert Histogram(input)[input[0] as int] > 0;
    }
  }
}
