/** The frequency table: each character of the training string mapped to the
    number of times it occurs (HuffmanEncoderDecoder.java, constructor). */
module Frequency {

  /** `freq` is the frequency table of `data`: its keys are exactly the characters
      of `data`, each mapped to its number of occurrences. */
  ghost predicate IsFrequencyTable(freq: map<char, nat>, data: string) {
    && (forall c :: c in freq <==> c in data)
    && (forall c :: c in freq ==> freq[c] == multiset(data)[c])
  }

  /** The loop of the constructor: a character seen for the first time is put
      with count 1, a character seen before has its count incremented. */
  method CountFrequencies(data: string) returns (freq: map<char, nat>)
    ensures IsFrequencyTable(freq, data)
    ensures forall c :: c in freq ==> freq[c] >= 1
  {
    freq := map[];
    for i := 0 to |data|
      invariant forall c :: c in freq <==> c in data[..i]
      invariant forall c :: c in freq ==> freq[c] == multiset(data[..i])[c]
    {
      var c := data[i];
      assert data[..i + 1] == data[..i] + [c];
      if c !in freq {
        freq := freq[c := 1];
      } else {
        var frequency := freq[c];
        frequency := frequency + 1;
        freq := freq[c := frequency];
      }
    }
    assert data[..|data|] == data;
  }

  /** The sum of the occurrence counts in `data` of the keys `ks`. */
  function SumCounts(data: string, ks: seq<char>): nat {
    if ks == [] then 0 else SumCounts(data, ks[..|ks| - 1]) + multiset(data)[ks[|ks| - 1]]
  }

  lemma {:induction false} SumCountsEmpty(ks: seq<char>)
    ensures SumCounts([], ks) == 0
    decreases |ks|
  {
    if ks != [] {
      SumCountsEmpty(ks[..|ks| - 1]);
    }
  }

  /** Adding one character `x` to the data adds, to the sum, the number of times
      `x` is listed among the keys. */
  lemma {:induction false} SumCountsSnoc(data: string, x: char, ks: seq<char>)
    ensures SumCounts(data + [x], ks) == SumCounts(data, ks) + multiset(ks)[x]
    decreases |ks|
  {
    if ks != [] {
      var init := ks[..|ks| - 1];
      SumCountsSnoc(data, x, init);
      assert ks == init + [ks[|ks| - 1]];
    }
  }

  /** When every character of `data` is listed exactly once in `ks`, the counts of
      the keys add up to the length of `data`: the weight of the Huffman root. */
  lemma {:induction false} TotalCount(data: string, ks: seq<char>)
    requires forall x :: x in data ==> multiset(ks)[x] == 1
    ensures SumCounts(data, ks) == |data|
    decreases |data|
  {
    if data == [] {
      SumCountsEmpty(ks);
    } else {
      var init := data[..|data| - 1];
      var x := data[|data| - 1];
      assert data == init + [x];
      assert forall y :: y in init ==> y in data;
      TotalCount(init, ks);
      SumCountsSnoc(init, x, ks);
    }
  }
}
