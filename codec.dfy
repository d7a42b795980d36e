/** Encoding and decoding of whole strings with a code table
    (HuffmanEncoderDecoder.java, encodeCharacter, encodeString, decodeString). */
module Codec {
  import opened CodeTable

  /** encodeCharacter on a table: the code of a trained character, and the
      character itself, as a one-character string, otherwise. */
  function EncodeSymbol(encoder: map<char, string>, c: char): string {
    if c in encoder then encoder[c] else [c]
  }

  /** encodeString: the encodings of the characters, concatenated in order
      without separators. */
  function Encode(encoder: map<char, string>, s: string): string {
    if s == [] then [] else EncodeSymbol(encoder, s[0]) + Encode(encoder, s[1..])
  }

  /** An input of characters that all have bit codes encodes to bits only. */
  lemma {:induction false} EncodeBits(encoder: map<char, string>, s: string)
    requires forall c :: c in s ==> c in encoder && IsBits(encoder[c])
    ensures IsBits(Encode(encoder, s))
    decreases |s|
  {
    if s != [] {
      assert forall c :: c in s[1..] ==> c in s;
      EncodeBits(encoder, s[1..]);
      var x, y := encoder[s[0]], Encode(encoder, s[1..]);
      assert s[0] in s;
      forall i | 0 <= i < |x + y| ensures IsBit((x + y)[i]) {
        if i >= |x| { assert (x + y)[i] == y[i - |x|]; }
      }
    }
  }

  /** Encoding one more character appends its encoding. */
  lemma {:induction false} EncodeSnoc(encoder: map<char, string>, s: string, c: char)
    ensures Encode(encoder, s + [c]) == Encode(encoder, s) + EncodeSymbol(encoder, c)
    decreases |s|
  {
    if s == [] {
      assert [] + [c] == [c];
      assert [c][1..] == [];
    } else {
      assert (s + [c])[0] == s[0] && (s + [c])[1..] == s[1..] + [c];
      EncodeSnoc(encoder, s[1..], c);
    }
  }

  /** decodeString as a scan over the input with a pending window of bits:
      a character other than '0' and '1' is emitted as it is and empties the
      window; a bit joins the window, which is emitted as its character and
      emptied as soon as it is a code; a window left at the end is dropped. */
  function DecodeScan(decoder: map<string, char>, s: string, pending: string): string {
    if s == [] then []
    else if !IsBit(s[0]) then [s[0]] + DecodeScan(decoder, s[1..], [])
    else if pending + [s[0]] in decoder then [decoder[pending + [s[0]]]] + DecodeScan(decoder, s[1..], [])
    else DecodeScan(decoder, s[1..], pending + [s[0]])
  }

  /** Every emitted character consumes at least one input character. */
  lemma {:induction false} DecodeScanLength(decoder: map<string, char>, s: string, pending: string)
    ensures |DecodeScan(decoder, s, pending)| <= |s|
    decreases |s|
  {
    if s != [] {
      DecodeScanLength(decoder, s[1..], []);
      DecodeScanLength(decoder, s[1..], pending + [s[0]]);
    }
  }

  /** One step of the scan, taken at position k of a longer string. */
  lemma ScanAt(decoder: map<string, char>, s: string, k: nat, pending: string)
    requires k < |s|
    ensures DecodeScan(decoder, s[k..], pending) ==
      if !IsBit(s[k]) then [s[k]] + DecodeScan(decoder, s[k + 1..], [])
      else if pending + [s[k]] in decoder then [decoder[pending + [s[k]]]] + DecodeScan(decoder, s[k + 1..], [])
      else DecodeScan(decoder, s[k + 1..], pending + [s[k]])
  {
    assert s[k..][0] == s[k] && s[k..][1..] == s[k + 1..];
  }

  /** decodeString: the scan started with an empty window. */
  function Decode(decoder: map<string, char>, s: string): string {
    DecodeScan(decoder, s, [])
  }

  /** What the tables built from a tree guarantee: the empty string is not a
      code, codes are bit strings, no code is a prefix of another, and each
      character's code decodes back to it. */
  ghost predicate InverseCodes(encoder: map<char, string>, decoder: map<string, char>) {
    && "" !in decoder
    && (forall s :: s in decoder ==> IsBits(s))
    && PrefixFree(decoder)
    && (forall c :: c in encoder ==> encoder[c] in decoder && decoder[encoder[c]] == c)
  }

  /** Bits `u` that complete the window `pending` to a code, with no code
      reached earlier, are decoded to that code's character; the scan then goes
      on with an empty window. */
  lemma {:induction false} ScanCode(decoder: map<string, char>, pending: string, u: string, tail: string)
    requires |u| > 0 && IsBits(u) && pending + u in decoder
    requires forall m :: 1 <= m < |u| ==> pending + u[..m] !in decoder
    ensures DecodeScan(decoder, u + tail, pending) == [decoder[pending + u]] + Decode(decoder, tail)
    decreases |u|
  {
    var c := u[0];
    assert (u + tail)[0] == c && (u + tail)[1..] == u[1..] + tail;
    assert IsBit(c);
    if |u| == 1 {
      assert pending + [c] == pending + u;
    } else {
      assert pending + [c] == pending + u[..1];
      var next := pending + [c];
      assert next + u[1..] == pending + u;
      forall m | 1 <= m < |u[1..]| ensures next + u[1..][..m] !in decoder {
        assert next + u[1..][..m] == pending + u[..m + 1];
      }
      ScanCode(decoder, next, u[1..], tail);
    }
  }

  /** Bits that never complete the window to a code decode to nothing. */
  lemma {:induction false} ScanNoMatch(decoder: map<string, char>, pending: string, u: string)
    requires IsBits(u)
    requires forall m :: 1 <= m <= |u| ==> pending + u[..m] !in decoder
    ensures DecodeScan(decoder, u, pending) == []
    decreases |u|
  {
    if u != [] {
      var next := pending + [u[0]];
      assert next == pending + u[..1];
      forall m | 1 <= m <= |u[1..]| ensures next + u[1..][..m] !in decoder {
        assert next + u[1..][..m] == pending + u[..m + 1];
      }
      ScanNoMatch(decoder, next, u[1..]);
    }
  }

  /** A prefix-free table reaches no code before the end of a code. */
  lemma NoEarlierCode(decoder: map<string, char>, x: string)
    requires PrefixFree(decoder) && x in decoder
    ensures forall m :: 1 <= m < |x| ==> [] + x[..m] !in decoder
  {
    forall m | 1 <= m < |x| ensures [] + x[..m] !in decoder {
      assert [] + x[..m] == x[..m] && x[..m] <= x;
    }
  }

  /** Decoding the encoding of one character followed by anything gives the
      character followed by the decoding of the rest. */
  lemma DecodeSymbol(encoder: map<char, string>, decoder: map<string, char>, c: char, tail: string)
    requires InverseCodes(encoder, decoder)
    requires c in encoder || !IsBit(c)
    ensures Decode(decoder, EncodeSymbol(encoder, c) + tail) == [c] + Decode(decoder, tail)
  {
    if c in encoder {
      var x := encoder[c];
      NoEarlierCode(decoder, x);
      assert [] + x == x;
      ScanCode(decoder, [], x, tail);
    } else {
      assert ([c] + tail)[0] == c && ([c] + tail)[1..] == tail;
    }
  }

  /** Decoding the encoding of `s` followed by anything gives `s` followed by the
      decoding of the rest, when every character of `s` is trained or is not a
      bit character (those pass through both ways). */
  lemma {:induction false} DecodeEncode(encoder: map<char, string>, decoder: map<string, char>, s: string, rest: string)
    requires InverseCodes(encoder, decoder)
    requires forall c :: c in s ==> c in encoder || !IsBit(c)
    ensures Decode(decoder, Encode(encoder, s) + rest) == s + Decode(decoder, rest)
    decreases |s|
  {
    if s == [] {
      assert Encode(encoder, s) + rest == rest;
    } else {
      var c, s1 := s[0], s[1..];
      var code, e1 := EncodeSymbol(encoder, c), Encode(encoder, s1);
      var d1, dr := Decode(decoder, e1 + rest), Decode(decoder, rest);
      assert Encode(encoder, s) + rest == code + (e1 + rest) by {
        EncodeCons(encoder, s, rest);
      }
      assert d1 == s1 + dr by {
        assert forall x :: x in s1 ==> x in s;
        DecodeEncode(encoder, decoder, s1, rest);
      }
      assert Decode(decoder, code + (e1 + rest)) == [c] + d1 by {
        assert c in s;
        DecodeSymbol(encoder, decoder, c, e1 + rest);
      }
      ConsAssoc(c, s1, dr);
    }
  }

  /** The encoding of a non-empty string followed by anything is the encoding
      of its first character followed by the rest. */
  lemma EncodeCons(encoder: map<char, string>, s: string, rest: string)
    requires s != []
    ensures Encode(encoder, s) + rest == EncodeSymbol(encoder, s[0]) + (Encode(encoder, s[1..]) + rest)
  {
  }

  lemma ConsAssoc(c: char, s1: string, t: string)
    ensures [c] + (s1 + t) == ([c] + s1) + t
  {
  }

  /** The round trip: decoding an encoding gives the input back. */
  lemma RoundTrip(encoder: map<char, string>, decoder: map<string, char>, s: string)
    requires InverseCodes(encoder, decoder)
    requires forall c :: c in s ==> c in encoder || !IsBit(c)
    ensures Decode(decoder, Encode(encoder, s)) == s
  {
    DecodeEncode(encoder, decoder, s, []);
    assert Encode(encoder, s) + [] == Encode(encoder, s);
    assert s + [] == s;
  }

  /** A trailing piece of a code, cut short, is dropped: the characters before
      it are decoded and nothing is emitted for it. */
  lemma TrailingWindowDropped(encoder: map<char, string>, decoder: map<string, char>, s: string, c: char, w: string)
    requires InverseCodes(encoder, decoder)
    requires forall x :: x in s ==> x in encoder || !IsBit(x)
    requires c in encoder && w < encoder[c]
    ensures Decode(decoder, Encode(encoder, s) + w) == s
  {
    DecodeEncode(encoder, decoder, s, w);
    var x := encoder[c];
    assert w == x[..|w|];
    assert IsBits(w) by {
      assert IsBits(x);
      forall i | 0 <= i < |w| ensures IsBit(w[i]) { assert w[i] == x[i]; }
    }
    forall m | 1 <= m <= |w| ensures [] + w[..m] !in decoder {
      assert [] + w[..m] == x[..m] && x[..m] <= x && m < |x|;
    }
    ScanNoMatch(decoder, [], w);
    assert s + [] == s;
  }

  /** A character other than '0' and '1' cuts the input in two pieces that are
      decoded independently: whatever window is pending when it arrives is
      dropped, and it is emitted itself. */
  lemma {:induction false} NonBitSplits(decoder: map<string, char>, a: string, c: char, b: string, pending: string)
    requires !IsBit(c)
    ensures DecodeScan(decoder, a + [c] + b, pending) == DecodeScan(decoder, a, pending) + [c] + Decode(decoder, b)
    decreases |a|
  {
    if a == [] {
      assert a + [c] + b == [c] + b;
      assert ([c] + b)[1..] == b;
    } else {
      assert (a + [c] + b)[0] == a[0];
      assert (a + [c] + b)[1..] == a[1..] + [c] + b;
      var next := pending + [a[0]];
      if !IsBit(a[0]) || next in decoder {
        NonBitSplits(decoder, a[1..], c, b, []);
      } else {
        NonBitSplits(decoder, a[1..], c, b, next);
      }
    }
  }

  /** A run of characters other than '0' and '1' is emitted as it is and cuts
      the input into two pieces decoded independently. */
  lemma {:induction false} NonBitRunSplits(decoder: map<string, char>, a: string, t: string, b: string)
    requires |t| > 0 && forall i :: 0 <= i < |t| ==> !IsBit(t[i])
    ensures Decode(decoder, a + t + b) == Decode(decoder, a) + t + Decode(decoder, b)
    decreases |t|
  {
    var c, t1 := t[0], t[1..];
    assert a + t + b == a + [c] + (t1 + b);
    NonBitSplits(decoder, a, c, t1 + b, []);
    if t1 == [] {
      assert t1 + b == b && t == [c];
    } else {
      NonBitRunSplits(decoder, [], t1, b);
      assert [] + t1 + b == t1 + b;
      assert t == [c] + t1;
    }
  }

  /** The driver's second decoding input: the letters pass through as
      themselves and cut the bits into two runs decoded on their own. */
  lemma DriverPassthrough(decoder: map<string, char>)
    ensures Decode(decoder, "011Jas01011on") == Decode(decoder, "011") + "Jas" + Decode(decoder, "01011") + "on"
  {
    var head := "011" + "Jas" + "01011";
    NonBitRunSplits(decoder, "011", "Jas", "01011");
    NonBitRunSplits(decoder, head, "on", "");
    assert "011Jas01011on" == head + "on" + "";
    assert DecodeScan(decoder, "", []) == [];
  }

  /** When every code starts with '0', a '1' that meets an empty window (at the
      start, after a code, after a character that is not a bit) never starts a
      code: the '1' and every bit after it up to the next other character
      decode to nothing. */
  lemma UntrainedOneDropsRun(decoder: map<string, char>, u: string)
    requires forall s :: s in decoder ==> |s| >= 1 && s[0] == '0'
    requires IsBits(u)
    ensures DecodeScan(decoder, ['1'] + u, []) == []
  {
    var w := ['1'] + u;
    forall i | 0 <= i < |w| ensures IsBit(w[i]) {
      if i > 0 { assert w[i] == u[i - 1]; }
    }
    forall m | 1 <= m <= |w| ensures [] + w[..m] !in decoder {
      assert ([] + w[..m])[0] == '1';
    }
    ScanNoMatch(decoder, [], w);
  }

  /** A '1' that meets a non-empty window can complete a code: with the codes
      a = "00" and b = "01", the '0' before the '1' opens the window "0" and
      the '1' completes b. */
  lemma UntrainedOneAfterZero(decoder: map<string, char>)
    requires decoder == map["00" := 'a', "01" := 'b']
    ensures Decode(decoder, "0100") == "ba"
  {
    assert [] + "0" == "0" && "0" !in decoder;
    assert DecodeScan(decoder, "0100", []) == DecodeScan(decoder, "100", "0") by {
      assert "0100"[1..] == "100";
    }
    assert "0" + "1" == "01" && "01" in decoder;
    assert DecodeScan(decoder, "100", "0") == "b" + DecodeScan(decoder, "00", []) by {
      assert "100"[1..] == "00";
    }
    assert "0" + "0" == "00" && "00" in decoder;
    assert DecodeScan(decoder, "00", []) == DecodeScan(decoder, "0", "0") by {
      assert "00"[1..] == "0";
    }
    assert DecodeScan(decoder, "0", "0") == "a" by {
      assert "0"[1..] == [];
    }
  }
}
