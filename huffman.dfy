/** The encoder/decoder object: it counts the training string, builds the tree,
    derives the code table once, and then only reads its fields
    (HuffmanEncoderDecoder.java). */
module Huffman {
  import opened Wrappers
  import opened Frequency
  import opened Tree
  import opened CodeTable
  import opened Codec

  /** Map union is associative: later entries win either way. */
  lemma UnionAssoc<K, V>(a: map<K, V>, b: map<K, V>, c: map<K, V>)
    ensures (a + b) + c == a + (b + c)
  {
  }

  lemma UnionEmpty<K, V>(m: map<K, V>)
    ensures map[] + m == m
  {
  }

  /* The three moves of decodeString's window input[i..j], each stated as the
     scan it leaves to do: emitting a non-bit character, emitting a code, and
     growing the window by one bit. */

  lemma NonBitStep(decoder: map<string, char>, input: string, i: nat, j: nat, ret: string)
    requires i < j <= |input| && !IsBit(input[j - 1])
    requires ret + DecodeScan(decoder, input[j - 1..], input[i..j - 1]) == Decode(decoder, input)
    ensures (ret + [input[j - 1]]) + DecodeScan(decoder, input[j..], []) == Decode(decoder, input)
  {
    ScanAt(decoder, input, j - 1, input[i..j - 1]);
  }

  lemma CodeStep(decoder: map<string, char>, input: string, i: nat, j: nat, ret: string)
    requires i < j <= |input| && input[i..j] in decoder
    requires ret + DecodeScan(decoder, input[j - 1..], input[i..j - 1]) == Decode(decoder, input)
    requires IsBit(input[j - 1])
    ensures (ret + [decoder[input[i..j]]]) + DecodeScan(decoder, input[j..], []) == Decode(decoder, input)
  {
    ScanAt(decoder, input, j - 1, input[i..j - 1]);
    assert input[i..j - 1] + [input[j - 1]] == input[i..j];
  }

  lemma GrowStep(decoder: map<string, char>, input: string, i: nat, j: nat, ret: string)
    requires i < j <= |input| && input[i..j] !in decoder && IsBit(input[j - 1])
    requires ret + DecodeScan(decoder, input[j - 1..], input[i..j - 1]) == Decode(decoder, input)
    ensures ret + DecodeScan(decoder, input[j..], input[i..j]) == Decode(decoder, input)
  {
    ScanAt(decoder, input, j - 1, input[i..j - 1]);
    assert input[i..j - 1] + [input[j - 1]] == input[i..j];
  }

  /** The pieces of the training string of the driver's first scenario. */
  const Capitals := "ABCDEFGHIJKLMNOPQRSTUVWXYZ"
  const SmallLetters := "abcdefghijklmnopqurstuvwxyz"

  class HuffmanEncoderDecoder {
    var frequencies: map<char, nat>
    var encoder: map<char, string>
    var decoder: map<string, char>
    var structure: Option<Node>
    /** The order in which the keys of `frequencies` are visited; the source
        leaves it to its hash map, which keeps it fixed. */
    const keyOrder: seq<char>
    /** The training string the object was built from. */
    ghost const training: string

    /** The object invariant: the fields hold the frequency table of the
        training string, its tree, and the tables derived from that tree. */
    ghost predicate Valid()
      reads this
    {
      && IsFrequencyTable(frequencies, training)
      && IsKeyOrder(keyOrder, frequencies)
      && (forall i :: 0 <= i < |keyOrder| ==> keyOrder[i] in frequencies)
      && structure == HuffmanTree(frequencies, keyOrder)
      && encoder == EncoderFor(structure)
      && decoder == DecoderFor(structure)
    }

    /** Counts the training string, then builds the tree and the tables. */
    constructor (frequencyData: string, keyOrder: seq<char>)
      requires forall c :: multiset(keyOrder)[c] == if c in frequencyData then 1 else 0
      ensures Valid()
      ensures training == frequencyData && this.keyOrder == keyOrder
    {
      training := frequencyData;
      this.keyOrder := keyOrder;
      var freq := CountFrequencies(frequencyData);
      frequencies := freq;
      encoder := map[];
      decoder := map[];
      structure := None;
      new;
      InitializeHuffmanEncoderDecoder();
    }

    /** Builds the tree from the frequency table and walks it into fresh tables.
        With no keys the root is left as it was. */
    method InitializeHuffmanEncoderDecoder()
      requires IsKeyOrder(keyOrder, frequencies)
      modifies this
      ensures frequencies == old(frequencies)
      ensures forall i :: 0 <= i < |keyOrder| ==> keyOrder[i] in frequencies
      ensures structure == if |keyOrder| == 0 then old(structure) else HuffmanTree(frequencies, keyOrder)
      ensures encoder == EncoderFor(structure) && decoder == DecoderFor(structure)
      ensures old(Valid()) ==> Valid()
    {
      KeyOrderInMap(keyOrder, frequencies);
      encoder := map[];
      decoder := map[];
      var pq, id := QueueLeaves(frequencies, keyOrder);
      if |pq| != 0 {
        var root := MergeQueue(pq, id);
        structure := Some(root);
      }
      if structure.Some? {
        SetUpMaps(structure.value, "0");
        UnionEmpty(EncoderOf(structure.value, "0"));
        UnionEmpty(DecoderOf(structure.value, "0"));
      }
    }

    /** Writes the code of every leaf under `here`, reached by the path
        `current`, into both tables. */
    method SetUpMaps(here: Node, current: string)
      modifies this
      ensures encoder == old(encoder) + EncoderOf(here, current)
      ensures decoder == old(decoder) + DecoderOf(here, current)
      ensures frequencies == old(frequencies) && structure == old(structure)
      decreases here
    {
      var left := current + "0";
      var right := current + "1";
      match here {
        case Leaf(c, _, _) =>
          encoder := encoder[c := current];
          decoder := decoder[current := c];
        case Internal(l, r, _, _) =>
          ghost var e0, d0 := encoder, decoder;
          SetUpMaps(l, left);
          SetUpMaps(r, right);
          UnionAssoc(e0, EncoderOf(l, left), EncoderOf(r, right));
          UnionAssoc(d0, DecoderOf(l, left), DecoderOf(r, right));
      }
    }

    /** What the invariant implies for the tables: the trained characters are
        exactly the encoded ones, codes are non-empty bit strings starting with
        '0', no code is a prefix of another, and the tables invert each other. */
    lemma ValidFacts()
      requires Valid()
      ensures forall c :: c in frequencies <==> c in encoder
      ensures forall c :: c in encoder <==> c in training
      ensures InverseCodes(encoder, decoder)
      ensures forall s :: s in decoder ==> |s| >= 1 && s[0] == '0'
      ensures forall s :: s in decoder ==> decoder[s] in encoder && encoder[decoder[s]] == s
    {
      HuffmanTreeFacts(training, frequencies, keyOrder);
      if structure.Some? {
        var t := structure.value;
        assert forall c :: c in encoder <==> c in training by {
          EncoderDomain(t, "0");
          forall c ensures c in Leaves(t) <==> c in training {
            assert c in Leaves(t) <==> multiset(Leaves(t))[c] > 0;
          }
        }
        assert forall s :: s in decoder ==> |s| >= 1 && s[0] == '0' && IsBits(s) by {
          CodesFromZero(t);
        }
        assert PrefixFree(decoder) by {
          CodesPrefixFree(t, "0");
        }
        assert UniqueLeaves(t);
        CodesInverse(t, "0");
      }
    }

    /** getFrequencyForCharacter: the number of occurrences in the training
        string, 0 exactly for untrained characters. */
    function GetFrequencyForCharacter(c: char): (r: nat)
      reads this
      requires Valid()
      ensures r == multiset(training)[c]
      ensures r == 0 <==> c !in training
    {
      if c !in frequencies then 0 else frequencies[c]
    }

    /** encodeCharacter: the code of a trained character, which decodes back to
        it; any other character as a one-character string. */
    function EncodeCharacter(rawCharacter: char): (r: string)
      reads this
      requires Valid()
      ensures r == EncodeSymbol(encoder, rawCharacter)
      ensures rawCharacter !in training ==> r == [rawCharacter]
      ensures rawCharacter in training ==>
        IsBits(r) && |r| >= 1 && r[0] == '0' && r in decoder && decoder[r] == rawCharacter
    {
      ValidFacts();
      var frequency := GetFrequencyForCharacter(rawCharacter);
      if frequency == 0 then [rawCharacter] else encoder[rawCharacter]
    }

    /** decodeCharacter: the character of a code, whose code it is; otherwise a
        one-character string's own character; otherwise the character 0. */
    function DecodeCharacter(encodedCharacter: string): (r: char)
      reads this
      requires Valid()
      ensures encodedCharacter in decoder ==>
        r == decoder[encodedCharacter] && r in training && r in encoder && encoder[r] == encodedCharacter
      ensures encodedCharacter !in decoder && |encodedCharacter| == 1 ==> r == encodedCharacter[0]
      ensures encodedCharacter !in decoder && |encodedCharacter| != 1 ==> r == 0 as char
    {
      ValidFacts();
      if encodedCharacter !in decoder then
        if |encodedCharacter| == 1 then encodedCharacter[0] else 0 as char
      else
        decoder[encodedCharacter]
    }

    /** Decoding the encoding of one character gives it back, when it is trained
        or is not a bit character. */
    lemma CharacterRoundTrip(c: char)
      requires Valid()
      requires c in training || !IsBit(c)
      ensures DecodeCharacter(EncodeCharacter(c)) == c
    {
      ValidFacts();
      if c !in training {
        assert [c] !in decoder;
      }
    }

    /** encodeString: the encodings of the characters, in order. */
    method EncodeString(input: string) returns (ret: string)
      requires Valid()
      ensures ret == Encode(encoder, input)
    {
      ret := "";
      for i := 0 to |input|
        invariant ret == Encode(encoder, input[..i])
      {
        var c := input[i];
        assert ret + EncodeCharacter(c) == Encode(encoder, input[..i + 1]) by {
          assert input[..i + 1] == input[..i] + [c];
          EncodeSnoc(encoder, input[..i], c);
        }
        ret := ret + EncodeCharacter(c);
      }
      assert input[..|input|] == input;
    }

    /** decodeString: a window input[i..j] grows one character at a time; a
        non-bit character is emitted and restarts the window after it, a window
        that is a code is emitted and restarted, and what is left at the end is
        dropped. */
    method DecodeString(input: string) returns (ret: string)
      requires Valid()
      ensures ret == Decode(decoder, input)
    {
      assert "" !in decoder by { ValidFacts(); }
      var i, j := 0, 0;
      ret := "";
      while j < |input| + 1
        invariant 0 <= i <= j <= |input| + 1
        invariant i == j ==> j <= |input| && (j == 0 || IsBit(input[j - 1]))
        invariant i == j ==> ret + DecodeScan(decoder, input[j..], []) == Decode(decoder, input)
        invariant i < j ==> ret + DecodeScan(decoder, input[j - 1..], input[i..j - 1]) == Decode(decoder, input)
        decreases |input| + 1 - j, j - i
      {
        if j > 0 && input[j - 1] != '1' && input[j - 1] != '0' {
          NonBitStep(decoder, input, i, j, ret);
          i := j;
          ret := ret + [input[j - 1]];
        }
        if input[i..j] in decoder {
          assert |input[i..j]| != 0;
          CodeStep(decoder, input, i, j, ret);
          ret := ret + [decoder[input[i..j]]];
          i := j;
        } else {
          if i < j {
            GrowStep(decoder, input, i, j, ret);
          } else {
            assert input[i..j] == [];
          }
          j := j + 1;
        }
      }
    }

    /** The round trip on strings: decoding the encoding of `s` gives `s`, when
        every character of `s` is trained or is not a bit character. */
    lemma StringRoundTrip(s: string)
      requires Valid()
      requires forall c :: c in s ==> c in training || !IsBit(c)
      ensures Decode(decoder, Encode(encoder, s)) == s
    {
      ValidFacts();
      RoundTrip(encoder, decoder, s);
    }

    /** The first scenario of the driver: trained on the capitals, a space, the
        small letters (with the driver's repeated 'u') and a full stop, a
        sentence survives encoding and decoding. */
    lemma SentenceRoundTrip()
      requires Valid()
      requires training == Capitals + " " + SmallLetters + "."
      ensures Decode(decoder, Encode(encoder, "Jason is bored.")) == "Jason is bored."
    {
      assert Capitals[9] == 'J';
      assert SmallLetters[0] == 'a' && SmallLetters[1] == 'b' && SmallLetters[3] == 'd' && SmallLetters[4] == 'e';
      assert SmallLetters[8] == 'i' && SmallLetters[13] == 'n' && SmallLetters[14] == 'o';
      assert SmallLetters[18] == 'r' && SmallLetters[19] == 's';
      StringRoundTrip("Jason is bored.");
    }

    /** An empty training string gives no root and empty tables, so every
        character is untrained and passes through. */
    lemma EmptyTraining()
      requires Valid() && training == []
      ensures structure == None && encoder == map[] && decoder == map[]
      ensures forall c :: GetFrequencyForCharacter(c) == 0 && EncodeCharacter(c) == [c]
    {
      HuffmanTreeFacts(training, frequencies, keyOrder);
    }

    /** Training on one repeated character gives it the one-bit code "0", and
        runs of it survive the round trip. */
    lemma RepeatedSymbol()
      requires Valid() && training == "aaaa"
      ensures EncodeCharacter('a') == "0"
      ensures Decode(decoder, Encode(encoder, "aaa")) == "aaa"
    {
      assert frequencies.Keys == {'a'} by {
        assert forall c :: c in training ==> c == 'a';
        assert training[0] == 'a';
      }
      KeyOrderLength(keyOrder, frequencies);
      assert |frequencies| == |frequencies.Keys| == 1;
      assert keyOrder[0] in frequencies by { KeyOrderInMap(keyOrder, frequencies); }
      SingleSymbol();
      StringRoundTrip("aaa");
    }

    /** An untrained '0' is passed through by the encoder and then read by the
        decoder as a code: trained on "aaaa", the input "0" comes back as "a". */
    lemma UntrainedZeroMisdecoded()
      requires Valid() && training == "aaaa"
      ensures Encode(encoder, "0") == "0"
      ensures Decode(decoder, Encode(encoder, "0")) == "a"
    {
      assert frequencies.Keys == {'a'} by {
        assert forall c :: c in training ==> c == 'a';
        assert training[0] == 'a';
      }
      KeyOrderLength(keyOrder, frequencies);
      assert |frequencies| == |frequencies.Keys| == 1;
      assert keyOrder[0] in frequencies by { KeyOrderInMap(keyOrder, frequencies); }
      SingleSymbol();
      assert '0' !in training;
      assert "0"[1..] == [];
      assert Encode(encoder, "0") == "0";
      assert keyOrder[0] == 'a';
      assert decoder == map["0" := 'a'];
      assert [] + ["0"[0]] == "0";
      assert DecodeScan(decoder, "0"[1..], []) == [];
    }

    /** An untrained '1' at the start of the input is passed through by the
        encoder; the decoder then meets it with an empty window and silently
        drops it, together with every bit that follows it. After an untrained
        '0' the window is not empty and a '1' can complete a code
        (`Codec.UntrainedOneAfterZero`). */
    lemma LeadingUntrainedOneDropped(u: string)
      requires Valid() && '1' !in training && IsBits(u)
      ensures Encode(encoder, "1") == "1"
      ensures Decode(decoder, Encode(encoder, "1") + u) == []
    {
      ValidFacts();
      assert "1"[1..] == [];
      assert Encode(encoder, "1") == "1";
      Codec.UntrainedOneDropsRun(decoder, u);
    }

    /** With one distinct training character the root is a single leaf weighing
        the whole training string, and its code is "0". */
    lemma SingleSymbol()
      requires Valid() && |keyOrder| == 1
      ensures structure == Some(Leaf(keyOrder[0], |training|, 0))
      ensures encoder == map[keyOrder[0] := "0"] && decoder == map["0" := keyOrder[0]]
    {
      HuffmanTreeFacts(training, frequencies, keyOrder);
      InitialQueueShape(frequencies, keyOrder);
    }
  }
}
