/** `TreeState`: a state of a tree-shaped problem is the path of actions
    that leads to it from the root. */
module TreeStates {
  import opened Ints
  import opened Text

  datatype TreeState = TreeState(path: seq<u32>)

  /** The default state: the root, with an empty path. */
  const Root: TreeState := TreeState([])

  /** The child of `prev` reached by action `x`; `prev` is a value and so
      stays as it was. */
  function Extend(prev: TreeState, x: u32): (s: TreeState)
    ensures Depth(s) == Depth(prev) + 1
    ensures s.path[..|prev.path|] == prev.path && s.path[|prev.path|] == x
  {
    TreeState(prev.path + [x])
  }

  /** The number of actions from the root. */
  function Depth(s: TreeState): (d: nat)
    ensures d == |s.path|
    ensures d == 0 <==> s == Root
  {
    |s.path|
  }

  /** `operator==`: the depth comparison is only a shortcut, equality is
      equality of the paths. */
  function Equals(a: TreeState, b: TreeState): (r: bool)
    ensures r <==> a.path == b.path
  {
    if Depth(a) != Depth(b) then false else a.path == b.path
  }

  function NotEquals(a: TreeState, b: TreeState): (r: bool)
    ensures r <==> a.path != b.path
  {
    !Equals(a, b)
  }

  function Decimals(xs: seq<u32>): (ds: seq<string>)
    ensures |ds| == |xs| && forall i :: 0 <= i < |xs| ==> ds[i] == NatToString(xs[i])
  {
    seq(|xs|, i requires 0 <= i < |xs| => NatToString(xs[i]))
  }

  /** The printed form of a state: its actions in decimal, separated by
      `", "`, between brackets. */
  function Show(s: TreeState): string
  {
    "[" + Join(Decimals(s.path), ", ") + "]"
  }

  /** `operator<<`: writes `[`, then each action preceded by `", "` except
      the first, then `]`. */
  method Print(s: TreeState) returns (out: string)
    ensures out == Show(s)
  {
    out := "[";
    var first := true;
    for i := 0 to |s.path|
      invariant first <==> i == 0
      invariant out == "[" + Join(Decimals(s.path[..i]), ", ")
    {
      assert Decimals(s.path[..i + 1]) == Decimals(s.path[..i]) + [NatToString(s.path[i])];
      if !first {
        JoinSnoc(Decimals(s.path[..i]), NatToString(s.path[i]), ", ");
        out := out + ", ";
      } else {
        first := false;
      }
      out := out + NatToString(s.path[i]);
    }
    assert s.path[..|s.path|] == s.path;
    out := out + "]";
  }

  /** Printing a child extends its parent's text: the closing bracket
      moves behind one more action, with a separator unless the parent is
      the root. */
  lemma ShowExtend(prev: TreeState, x: u32)
    ensures var t := Show(prev);
      |t| >= 2 &&
      Show(Extend(prev, x)) == t[..|t| - 1] + (if prev.path == [] then "" else ", ") + NatToString(x) + "]"
  {
    var ds := Decimals(prev.path);
    var d := NatToString(x);
    var j := Join(ds, ", ");
    var sep := if prev.path == [] then "" else ", ";
    var t := Show(prev);
    assert Show(Extend(prev, x)) == "[" + Join(ds + [d], ", ") + "]" by {
      DecimalsSnoc(prev.path, x);
    }
    assert Join(ds + [d], ", ") == j + sep + d by {
      JoinAppend(ds, d, ", ");
    }
    assert |t| >= 2 && t[..|t| - 1] == "[" + j by {
      BracketedInit(j);
    }
    ConcatRegroup("[", j, sep, d);
  }

  lemma ConcatRegroup(a: string, b: string, c: string, e: string)
    ensures a + ((b + c) + e) == ((a + b) + c) + e
  {
    assert a + ((b + c) + e) == (a + (b + c)) + e;
    assert a + (b + c) == (a + b) + c;
  }

  lemma DecimalsSnoc(xs: seq<u32>, x: u32)
    ensures Decimals(xs + [x]) == Decimals(xs) + [NatToString(x)]
  {
  }

  lemma BracketedInit(j: string)
    ensures var t := "[" + j + "]"; |t| >= 2 && t[..|t| - 1] == "[" + j
  {
    var t := "[" + j + "]";
    assert t[..|t| - 1] == "[" + j;
  }

  /** Thomas Wang's 32-bit integer mix, with the wrap-around of
      `std::uint32_t` multiplication. */
  function MixWord(x: bv32): bv32
  {
    var a := ((x >> 16) ^ x) * 0x45d9f3b;
    var b := ((a >> 16) ^ a) * 0x45d9f3b;
    (b >> 16) ^ b
  }

  /** One `seed ^= x + 0x9e3779b9 + (seed << 6) + (seed >> 2)` step: the
      first sum is taken in 32 bits, the rest in 64. */
  function Combine(seed: bv64, x: bv32): bv64
  {
    seed ^ (((x + 0x9e3779b9) as bv64) + (seed << 6) + (seed >> 2))
  }

  /** The seed after the first `i` actions of `s` have been mixed in,
      starting from the depth. */
  function HashPrefix(s: TreeState, i: nat): bv64
    requires i <= |s.path|
  {
    if i == 0 then (|s.path| % 0x1_0000_0000_0000_0000) as bv64
    else HashStep(HashPrefix(s, i - 1), s.path[i - 1])
  }

  function HashStep(seed: bv64, x: u32): bv64
  {
    Combine(seed, MixWord(x as bv32))
  }

  /** The `std::hash` specialisation: a function of the path alone. */
  function HashOf(s: TreeState): bv64
  {
    HashPrefix(s, |s.path|)
  }

  method Hash(s: TreeState) returns (h: bv64)
    ensures h == HashOf(s)
  {
    h := (|s.path| % 0x1_0000_0000_0000_0000) as bv64;
    for i := 0 to |s.path|
      invariant h == HashPrefix(s, i)
    {
      h := HashStep(h, s.path[i]);
    }
  }

  /** States that compare equal hash equally. The hash is a function of
      the path alone, so this holds by congruence and needs no proof steps. */
  lemma EqualStatesHashEqually(a: TreeState, b: TreeState)
    requires Equals(a, b)
    ensures HashOf(a) == HashOf(b)
  {
  }
}
