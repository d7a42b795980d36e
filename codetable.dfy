/** The code table derived from the tree by setUpMaps: the path to each leaf,
    written with '0' for left and '1' for right after a starting prefix, in both
    directions (HuffmanEncoderDecoder.java, setUpMaps). */
module CodeTable {
  import opened Wrappers
  import opened Tree

  predicate IsBit(c: char) {
    c == '0' || c == '1'
  }

  predicate IsBits(s: string) {
    forall i :: 0 <= i < |s| ==> IsBit(s[i])
  }

  /** No code is a proper prefix of another (`a <= b` is "a is a prefix of b"). */
  ghost predicate PrefixFree(decoder: map<string, char>) {
    forall a, b :: a in decoder && b in decoder && a <= b ==> a == b
  }

  /** Every character appears in at most one leaf. */
  ghost predicate UniqueLeaves(t: Node) {
    forall c :: multiset(Leaves(t))[c] <= 1
  }

  /** The character-to-code entries that setUpMaps(t, prefix) writes; a later
      write (the right subtree) replaces an earlier one. */
  function EncoderOf(t: Node, prefix: string): map<char, string> {
    match t
    case Leaf(c, _, _) => map[c := prefix]
    case Internal(l, r, _, _) => EncoderOf(l, prefix + "0") + EncoderOf(r, prefix + "1")
  }

  /** The code-to-character entries that setUpMaps(t, prefix) writes. */
  function DecoderOf(t: Node, prefix: string): map<string, char> {
    match t
    case Leaf(c, _, _) => map[prefix := c]
    case Internal(l, r, _, _) => DecoderOf(l, prefix + "0") + DecoderOf(r, prefix + "1")
  }

  /** The tables of a possibly absent root, walked from the prefix "0". */
  function EncoderFor(root: Option<Node>): map<char, string> {
    if root.None? then map[] else EncoderOf(root.value, "0")
  }

  function DecoderFor(root: Option<Node>): map<string, char> {
    if root.None? then map[] else DecoderOf(root.value, "0")
  }

  /** The number of edges from the root of `t` to the leaf that setUpMaps writes
      last for `c`. */
  function Depth(t: Node, c: char): nat {
    match t
    case Leaf(_, _, _) => 0
    case Internal(l, r, _, _) => 1 + (if c in Leaves(r) then Depth(r, c) else Depth(l, c))
  }

  /** Every code written from `prefix` extends it with bits only. */
  lemma {:induction false} CodesExtendPrefix(t: Node, prefix: string)
    ensures forall s :: s in DecoderOf(t, prefix) ==>
      |prefix| <= |s| && s[..|prefix|] == prefix && IsBits(s[|prefix|..])
  {
    match t
    case Leaf(_, _, _) =>
    case Internal(l, r, _, _) =>
      CodesExtendPrefix(l, prefix + "0");
      CodesExtendPrefix(r, prefix + "1");
      forall s | s in DecoderOf(t, prefix)
        ensures |prefix| <= |s| && s[..|prefix|] == prefix && IsBits(s[|prefix|..])
      {
        var p := if s in DecoderOf(r, prefix + "1") then prefix + "1" else prefix + "0";
        assert s[..|p|] == p && IsBits(s[|p|..]);
        assert s[..|prefix|] == p[..|prefix|];
        assert s[|prefix|..] == [p[|prefix|]] + s[|p|..];
      }
  }

  /** The characters that get a code are exactly the characters at the leaves. */
  lemma {:induction false} EncoderDomain(t: Node, prefix: string)
    ensures forall c :: c in EncoderOf(t, prefix) <==> c in Leaves(t)
  {
    match t
    case Leaf(_, _, _) =>
    case Internal(l, r, _, _) =>
      EncoderDomain(l, prefix + "0");
      EncoderDomain(r, prefix + "1");
  }

  /** Codes of the left subtree carry '0' at position |prefix|, codes of the
      right subtree '1', so neither is a prefix of the other. */
  lemma SidesDiffer(l: Node, r: Node, prefix: string, a: string, b: string)
    requires a in DecoderOf(l, prefix + "0") && b in DecoderOf(r, prefix + "1")
    ensures |a| > |prefix| && |b| > |prefix| && a[|prefix|] == '0' && b[|prefix|] == '1'
    ensures !(a <= b) && !(b <= a)
  {
    CodesExtendPrefix(l, prefix + "0");
    CodesExtendPrefix(r, prefix + "1");
    assert a[..|prefix| + 1][|prefix|] == '0';
    assert b[..|prefix| + 1][|prefix|] == '1';
  }

  /** No code written by setUpMaps is a prefix of another. */
  lemma {:induction false} CodesPrefixFree(t: Node, prefix: string)
    ensures PrefixFree(DecoderOf(t, prefix))
  {
    match t
    case Leaf(_, _, _) =>
    case Internal(l, r, _, _) =>
      CodesPrefixFree(l, prefix + "0");
      CodesPrefixFree(r, prefix + "1");
      var dl, dr := DecoderOf(l, prefix + "0"), DecoderOf(r, prefix + "1");
      forall a, b | a in DecoderOf(t, prefix) && b in DecoderOf(t, prefix) && a <= b
        ensures a == b
      {
        if a in dl && b in dr {
          SidesDiffer(l, r, prefix, a, b);
        } else if a in dr && b in dl {
          SidesDiffer(l, r, prefix, b, a);
        }
      }
  }

  lemma UniqueLeavesSplit(l: Node, r: Node, f: nat, id: nat)
    requires UniqueLeaves(Internal(l, r, f, id))
    ensures UniqueLeaves(l) && UniqueLeaves(r)
    ensures forall c :: c in Leaves(l) ==> c !in Leaves(r)
  {
    var ml, mr := multiset(Leaves(l)), multiset(Leaves(r));
    assert multiset(Leaves(Internal(l, r, f, id))) == ml + mr;
    forall c ensures ml[c] <= 1 && mr[c] <= 1 && (c in Leaves(l) ==> c !in Leaves(r)) {
      assert multiset(Leaves(Internal(l, r, f, id)))[c] <= 1;
    }
  }

  /** With each character in one leaf, the two tables are inverse bijections
      between the leaf characters and the codes. */
  lemma {:induction false} CodesInverse(t: Node, prefix: string)
    requires UniqueLeaves(t)
    ensures forall c :: c in EncoderOf(t, prefix) ==>
      EncoderOf(t, prefix)[c] in DecoderOf(t, prefix) && DecoderOf(t, prefix)[EncoderOf(t, prefix)[c]] == c
    ensures forall s :: s in DecoderOf(t, prefix) ==>
      DecoderOf(t, prefix)[s] in EncoderOf(t, prefix) && EncoderOf(t, prefix)[DecoderOf(t, prefix)[s]] == s
  {
    match t
    case Leaf(_, _, _) =>
    case Internal(l, r, f, id) =>
      UniqueLeavesSplit(l, r, f, id);
      CodesInverse(l, prefix + "0");
      CodesInverse(r, prefix + "1");
      EncoderDomain(l, prefix + "0");
      EncoderDomain(r, prefix + "1");
      var el, er := EncoderOf(l, prefix + "0"), EncoderOf(r, prefix + "1");
      var dl, dr := DecoderOf(l, prefix + "0"), DecoderOf(r, prefix + "1");
      var e, d := el + er, dl + dr;
      forall c | c in e ensures e[c] in d && d[e[c]] == c {
        if c !in er {
          assert el[c] in dl;
          if el[c] in dr { SidesDiffer(l, r, prefix, el[c], el[c]); }
        }
      }
      forall s | s in d ensures d[s] in e && e[d[s]] == s {
        if s !in dr {
          assert dl[s] in el && dl[s] in Leaves(l);
        }
      }
  }

  /** The code of a leaf character is the prefix followed by one bit per edge on
      the way down: its length is the prefix length plus the leaf's depth. */
  lemma {:induction false} CodeLength(t: Node, prefix: string, c: char)
    requires c in Leaves(t)
    ensures c in EncoderOf(t, prefix) && |EncoderOf(t, prefix)[c]| == |prefix| + Depth(t, c)
  {
    EncoderDomain(t, prefix);
    match t
    case Leaf(_, _, _) =>
    case Internal(l, r, _, _) =>
      if c in Leaves(r) {
        CodeLength(r, prefix + "1", c);
      } else {
        CodeLength(l, prefix + "0", c);
        EncoderDomain(r, prefix + "1");
      }
  }

  /** Walked from "0", every code is a non-empty bit string that starts with
      '0' and is one longer than the depth of its leaf. */
  lemma CodesFromZero(t: Node)
    ensures forall s :: s in DecoderOf(t, "0") ==> |s| >= 1 && s[0] == '0' && IsBits(s)
    ensures forall c :: c in Leaves(t) ==>
      c in EncoderOf(t, "0") && |EncoderOf(t, "0")[c]| == 1 + Depth(t, c)
  {
    CodesExtendPrefix(t, "0");
    forall s | s in DecoderOf(t, "0") ensures |s| >= 1 && s[0] == '0' && IsBits(s) {
      assert s[..1] == "0";
      assert s == [s[0]] + s[1..];
    }
    forall c | c in Leaves(t) ensures c in EncoderOf(t, "0") && |EncoderOf(t, "0")[c]| == 1 + Depth(t, c) {
      CodeLength(t, "0", c);
    }
  }

  /** The one-symbol tree gets the code "0". */
  lemma SingleLeafCode(c: char, f: nat, id: nat)
    ensures EncoderOf(Leaf(c, f, id), "0") == map[c := "0"]
    ensures DecoderOf(Leaf(c, f, id), "0") == map["0" := c]
  {
  }
}
