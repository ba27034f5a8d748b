/** The generator of the software renderer's dispatch tables
    (vendor/emu/refsw/gentable.py): a C++ array of function pointers with one
    dimension per template parameter, initialised by nested braces whose
    leaves name every instantiation. */
module GenTable {
  import opened Wrappers

  /** One line of the generated text, before it is spelled out. */
  datatype Line =
    | Decl(name: string, dims: seq<nat>)
    | Open(indent: string)
    | Leaf(indent: string, name: string, indices: seq<nat>)
    | Close(indent: string, outer: bool)
    | Terminator

  function Digit(d: nat): char
    requires d < 10
  {
    "0123456789"[d]
  }

  /** `str(n)` for a non-negative integer. */
  function Decimal(n: nat): (s: string)
    ensures |s| > 0 && forall k :: 0 <= k < |s| ==> '0' <= s[k] <= '9'
  {
    if n < 10 then [Digit(n)] else Decimal(n / 10) + [Digit(n % 10)]
  }

  /** The number a string of decimal digits spells. */
  function DigitsValue(s: string): nat
    requires forall k :: 0 <= k < |s| ==> '0' <= s[k] <= '9'
  {
    if s == [] then 0 else 10 * DigitsValue(s[..|s| - 1]) + (s[|s| - 1] as int - '0' as int)
  }

  /** `str` spells the number it is given. */
  lemma {:induction false} DecimalValue(n: nat)
    ensures DigitsValue(Decimal(n)) == n
  {
    if n >= 10 {
      DecimalValue(n / 10);
      var s := Decimal(n);
      assert s[..|s| - 1] == Decimal(n / 10);
    }
  }

  /** `', '.join(str(i) for i in indices)`. */
  function JoinNumbers(xs: seq<nat>): string
  {
    if |xs| == 0 then "" else if |xs| == 1 then Decimal(xs[0]) else Decimal(xs[0]) + ", " + JoinNumbers(xs[1..])
  }

  /** `''.join(f'[{p}]' for p in parameters)`. */
  function DimsText(ps: seq<nat>): string
  {
    if ps == [] then "" else "[" + Decimal(ps[0]) + "]" + DimsText(ps[1..])
  }

  /** The text of one line, as the f-strings of `generate_table` spell it. */
  function Render(l: Line): string
  {
    match l
    case Decl(name, dims) => name + "_fp " + name + "_table" + DimsText(dims) + " ="
    case Open(indent) => indent + "{"
    case Leaf(indent, name, indices) => indent + "&" + name + "<" + JoinNumbers(indices) + ">,"
    case Close(indent, outer) => indent + (if outer then "}" else "},")
    case Terminator => ";"
  }

  function RenderAll(ls: seq<Line>): (r: seq<string>)
    ensures |r| == |ls| && forall k :: 0 <= k < |ls| ==> r[k] == Render(ls[k])
  {
    if ls == [] then [] else [Render(ls[0])] + RenderAll(ls[1..])
  }

  /** `'\n'.join(lines)`. */
  function JoinLines(ls: seq<string>): string
  {
    if |ls| == 0 then "" else if |ls| == 1 then ls[0] else ls[0] + "\n" + JoinLines(ls[1..])
  }

  const Step: string := "    "

  /** The lines `recurse(level, indices, indent)` appends for the
      parameter ranges `ps`: a leaf at the last level, otherwise an opening
      brace, the sub-tables for `0 .. ps[level] - 1`, and a closing brace
      that carries a comma below the outermost level. */
  function Tree(name: string, ps: seq<nat>, level: nat, indices: seq<nat>, indent: string): seq<Line>
    requires level <= |ps|
    decreases |ps| - level, 1, 0
  {
    if level == |ps| then [Leaf(indent, name, indices)]
    else [Open(indent)] + Children(name, ps, level, indices, indent, ps[level]) + [Close(indent, level == 0)]
  }

  /** The sub-tables for `i` in `0 .. k - 1` at `level`. */
  function Children(name: string, ps: seq<nat>, level: nat, indices: seq<nat>, indent: string, k: nat): seq<Line>
    requires level < |ps|
    decreases |ps| - level, 0, k
  {
    if k == 0 then []
    else Children(name, ps, level, indices, indent, k - 1) + Tree(name, ps, level + 1, indices + [k - 1], indent + Step)
  }

  /** Every lines list `generate_table` returns, as structured lines. */
  function Table(name: string, ps: seq<nat>): seq<Line>
  {
    [Decl(name, ps)] + Tree(name, ps, 0, [], Step) + [Terminator]
  }

  // ---------------------------------------------------------------------
  // The index tuples of the leaves.

  /** `[i] + t` for every `t` of `ts`. */
  function Prefix(i: nat, ts: seq<seq<nat>>): (r: seq<seq<nat>>)
    ensures |r| == |ts| && forall j :: 0 <= j < |ts| ==> r[j] == [i] + ts[j]
  {
    seq(|ts|, j requires 0 <= j < |ts| => [i] + ts[j])
  }

  /** `idx + t` for every `t` of `ts`. */
  function PrefixAll(idx: seq<nat>, ts: seq<seq<nat>>): (r: seq<seq<nat>>)
    ensures |r| == |ts| && forall j :: 0 <= j < |ts| ==> r[j] == idx + ts[j]
  {
    seq(|ts|, j requires 0 <= j < |ts| => idx + ts[j])
  }

  /** The tuples `[i] + t` for `i` in `0 .. k - 1` and `t` in `ts`, `i`
      outermost. */
  function Block(k: nat, ts: seq<seq<nat>>): seq<seq<nat>>
  {
    if k == 0 then [] else Block(k - 1, ts) + Prefix(k - 1, ts)
  }

  /** Every index tuple of a table with ranges `ps`, in lexicographic
      order. */
  function Tuples(ps: seq<nat>): seq<seq<nat>>
  {
    if ps == [] then [[]] else Block(ps[0], Tuples(ps[1..]))
  }

  function Product(ps: seq<nat>): nat
  {
    if ps == [] then 1 else ps[0] * Product(ps[1..])
  }

  /** The index tuples of the leaf lines, in order. */
  function Leaves(ls: seq<Line>): seq<seq<nat>>
  {
    if ls == [] then [] else (if ls[0].Leaf? then [ls[0].indices] else []) + Leaves(ls[1..])
  }

  lemma {:induction false} LeavesAppend(a: seq<Line>, b: seq<Line>)
    ensures Leaves(a + b) == Leaves(a) + Leaves(b)
  {
    if a == [] {
      assert a + b == b;
    } else {
      var h := if a[0].Leaf? then [a[0].indices] else [];
      assert (a + b)[0] == a[0] && (a + b)[1..] == a[1..] + b;
      assert Leaves(a + b) == h + Leaves(a[1..] + b);
      LeavesAppend(a[1..], b);
      assert h + (Leaves(a[1..]) + Leaves(b)) == (h + Leaves(a[1..])) + Leaves(b);
    }
  }

  lemma PrefixAllAppend(idx: seq<nat>, a: seq<seq<nat>>, b: seq<seq<nat>>)
    ensures PrefixAll(idx, a + b) == PrefixAll(idx, a) + PrefixAll(idx, b)
  {
  }

  lemma PrefixAllPrefix(idx: seq<nat>, i: nat, ts: seq<seq<nat>>)
    ensures PrefixAll(idx + [i], ts) == PrefixAll(idx, Prefix(i, ts))
  {
    forall j | 0 <= j < |ts|
      ensures PrefixAll(idx + [i], ts)[j] == PrefixAll(idx, Prefix(i, ts))[j]
    {
      assert idx + [i] + ts[j] == idx + ([i] + ts[j]);
    }
  }

  /** The leaves below `recurse(level, indices, …)` are `indices` followed
      by every tuple of the remaining ranges, in lexicographic order. */
  lemma {:induction false} TreeLeaves(name: string, ps: seq<nat>, level: nat, indices: seq<nat>, indent: string)
    requires level <= |ps|
    ensures Leaves(Tree(name, ps, level, indices, indent)) == PrefixAll(indices, Tuples(ps[level..]))
    decreases |ps| - level, 1, 0
  {
    var t := Tree(name, ps, level, indices, indent);
    if level == |ps| {
      assert ps[level..] == [];
      assert indices + [] == indices;
      assert Leaves(t) == [indices];
    } else {
      var c := Children(name, ps, level, indices, indent, ps[level]);
      ChildrenLeaves(name, ps, level, indices, indent, ps[level]);
      LeavesAppend([Open(indent)], c);
      LeavesAppend([Open(indent)] + c, [Close(indent, level == 0)]);
      assert ps[level..][1..] == ps[level + 1..];
    }
  }

  lemma {:induction false} ChildrenLeaves(name: string, ps: seq<nat>, level: nat, indices: seq<nat>, indent: string, k: nat)
    requires level < |ps|
    ensures Leaves(Children(name, ps, level, indices, indent, k)) == PrefixAll(indices, Block(k, Tuples(ps[level + 1..])))
    decreases |ps| - level, 0, k
  {
    if k > 0 {
      var ts := Tuples(ps[level + 1..]);
      ChildrenLeaves(name, ps, level, indices, indent, k - 1);
      TreeLeaves(name, ps, level + 1, indices + [k - 1], indent + Step);
      LeavesAppend(Children(name, ps, level, indices, indent, k - 1), Tree(name, ps, level + 1, indices + [k - 1], indent + Step));
      PrefixAllPrefix(indices, k - 1, ts);
      PrefixAllAppend(indices, Block(k - 1, ts), Prefix(k - 1, ts));
    }
  }

  lemma {:induction false} BlockLength(k: nat, ts: seq<seq<nat>>)
    ensures |Block(k, ts)| == k * |ts|
  {
    if k > 0 {
      BlockLength(k - 1, ts);
      assert k * |ts| == (k - 1) * |ts| + |ts|;
    }
  }

  /** A table has exactly the product of its ranges as tuples. */
  lemma {:induction false} TuplesLength(ps: seq<nat>)
    ensures |Tuples(ps)| == Product(ps)
  {
    if ps != [] {
      TuplesLength(ps[1..]);
      BlockLength(ps[0], Tuples(ps[1..]));
    }
  }

  /** A tuple within the ranges `ps`. */
  ghost predicate InRange(t: seq<nat>, ps: seq<nat>)
  {
    |t| == |ps| && forall k :: 0 <= k < |t| ==> t[k] < ps[k]
  }

  /** `a` comes strictly before `b` in lexicographic order. */
  ghost predicate LexLess(a: seq<nat>, b: seq<nat>)
  {
    exists i :: 0 <= i < |a| && i < |b| && a[..i] == b[..i] && a[i] < b[i]
  }

  ghost predicate LexSorted(ts: seq<seq<nat>>)
  {
    forall i, j :: 0 <= i < j < |ts| ==> LexLess(ts[i], ts[j])
  }

  lemma PrefixLess(c: nat, a: seq<nat>, b: seq<nat>)
    requires LexLess(a, b)
    ensures LexLess([c] + a, [c] + b)
  {
    var i :| 0 <= i < |a| && i < |b| && a[..i] == b[..i] && a[i] < b[i];
    assert ([c] + a)[..i + 1] == [c] + a[..i];
    assert ([c] + b)[..i + 1] == [c] + b[..i];
  }

  lemma HeadLess(a: seq<nat>, b: seq<nat>)
    requires |a| > 0 && |b| > 0 && a[0] < b[0]
    ensures LexLess(a, b)
  {
    assert a[..0] == b[..0];
  }

  lemma {:induction false} BlockShape(k: nat, ts: seq<seq<nat>>)
    ensures forall j :: 0 <= j < |Block(k, ts)| ==> |Block(k, ts)[j]| > 0 && Block(k, ts)[j][0] < k
    ensures forall j :: 0 <= j < |Block(k, ts)| ==> Block(k, ts)[j][1..] in ts
  {
    if k > 0 {
      BlockShape(k - 1, ts);
      var b, p := Block(k - 1, ts), Prefix(k - 1, ts);
      forall j | 0 <= j < |b + p|
        ensures |(b + p)[j]| > 0 && (b + p)[j][0] < k && (b + p)[j][1..] in ts
      {
        if j >= |b| {
          assert (b + p)[j] == [k - 1] + ts[j - |b|];
          assert ([k - 1] + ts[j - |b|])[1..] == ts[j - |b|];
        }
      }
    }
  }

  lemma {:induction false} BlockSorted(k: nat, ts: seq<seq<nat>>)
    requires LexSorted(ts)
    ensures LexSorted(Block(k, ts))
  {
    if k > 0 {
      BlockSorted(k - 1, ts);
      BlockShape(k - 1, ts);
      var b, p := Block(k - 1, ts), Prefix(k - 1, ts);
      forall i, j | 0 <= i < j < |b + p|
        ensures LexLess((b + p)[i], (b + p)[j])
      {
        if j < |b| {
          assert (b + p)[i] == b[i] && (b + p)[j] == b[j];
        } else if i < |b| {
          HeadLess(b[i], p[j - |b|]);
        } else {
          PrefixLess(k - 1, ts[i - |b|], ts[j - |b|]);
        }
      }
    }
  }

  /** The tuples are strictly increasing in lexicographic order, so each
      occurs once. */
  lemma {:induction false} TuplesSorted(ps: seq<nat>)
    ensures LexSorted(Tuples(ps))
  {
    if ps != [] {
      TuplesSorted(ps[1..]);
      BlockSorted(ps[0], Tuples(ps[1..]));
    }
  }

  /** A tuple is one of the table's exactly when it lies within the
      ranges. */
  lemma {:induction false} TuplesComplete(ps: seq<nat>, t: seq<nat>)
    ensures t in Tuples(ps) <==> InRange(t, ps)
  {
    if ps == [] {
    } else {
      var ts := Tuples(ps[1..]);
      BlockShape(ps[0], ts);
      if t in Tuples(ps) {
        TuplesComplete(ps[1..], t[1..]);
      }
      if InRange(t, ps) {
        TuplesComplete(ps[1..], t[1..]);
        var j :| 0 <= j < |ts| && ts[j] == t[1..];
        assert t == [t[0]] + ts[j];
        BlockHas(ps[0], t[0], ts, j);
      }
    }
  }

  lemma {:induction false} BlockHas(k: nat, i: nat, ts: seq<seq<nat>>, j: nat)
    requires i < k && j < |ts|
    ensures [i] + ts[j] in Block(k, ts)
  {
    if i < k - 1 {
      BlockHas(k - 1, i, ts, j);
    } else {
      assert Prefix(k - 1, ts)[j] == [i] + ts[j];
    }
  }

  /** The leaves of the generated table: one per index tuple within the
      ranges, none twice, `Product(ps)` of them, in lexicographic order. */
  lemma TableLeaves(name: string, ps: seq<nat>)
    ensures Leaves(Table(name, ps)) == Tuples(ps)
    ensures |Leaves(Table(name, ps))| == Product(ps) && LexSorted(Leaves(Table(name, ps)))
    ensures forall t :: t in Leaves(Table(name, ps)) <==> InRange(t, ps)
  {
    TreeLeaves(name, ps, 0, [], Step);
    LeavesAppend([Decl(name, ps)], Tree(name, ps, 0, [], Step));
    LeavesAppend([Decl(name, ps)] + Tree(name, ps, 0, [], Step), [Terminator]);
    assert ps[0..] == ps;
    var ts := Tuples(ps);
    assert PrefixAll([], ts) == ts by {
      forall j | 0 <= j < |ts| ensures PrefixAll([], ts)[j] == ts[j] {
        assert [] + ts[j] == ts[j];
      }
    }
    TuplesLength(ps);
    TuplesSorted(ps);
    forall t ensures t in ts <==> InRange(t, ps) {
      TuplesComplete(ps, t);
    }
  }

  // ---------------------------------------------------------------------
  // The braces.

  /** The nesting depth after `ls`, starting at `d`; `None` once a brace
      closes with none open. */
  function Walk(ls: seq<Line>, d: nat): Option<nat>
  {
    if ls == [] then Some(d)
    else if ls[0].Open? then Walk(ls[1..], d + 1)
    else if ls[0].Close? then (if d == 0 then None else Walk(ls[1..], d - 1))
    else Walk(ls[1..], d)
  }



  lemma {:induction false} WalkAppend(a: seq<Line>, b: seq<Line>, d: nat)
    ensures Walk(a + b, d) == if Walk(a, d).None? then None else Walk(b, Walk(a, d).value)
  {
    if a == [] {
      assert a + b == b;
    } else {
      assert (a + b)[0] == a[0] && (a + b)[1..] == a[1..] + b;
      if a[0].Open? {
        WalkAppend(a[1..], b, d + 1);
      } else if a[0].Close? {
        if d > 0 {
          WalkAppend(a[1..], b, d - 1);
        }
      } else {
        WalkAppend(a[1..], b, d);
      }
    }
  }

  lemma {:induction false} TreeBalanced(name: string, ps: seq<nat>, level: nat, indices: seq<nat>, indent: string, d: nat)
    requires level <= |ps|
    ensures Walk(Tree(name, ps, level, indices, indent), d) == Some(d)
    decreases |ps| - level, 1, 0
  {
    if level < |ps| {
      var c := Children(name, ps, level, indices, indent, ps[level]);
      ChildrenBalanced(name, ps, level, indices, indent, ps[level], d + 1);
      WalkAppend([Open(indent)], c, d);
      WalkAppend([Open(indent)] + c, [Close(indent, level == 0)], d);
    }
  }

  lemma {:induction false} ChildrenBalanced(name: string, ps: seq<nat>, level: nat, indices: seq<nat>, indent: string, k: nat, d: nat)
    requires level < |ps|
    ensures Walk(Children(name, ps, level, indices, indent, k), d) == Some(d)
    decreases |ps| - level, 0, k
  {
    if k > 0 {
      ChildrenBalanced(name, ps, level, indices, indent, k - 1, d);
      TreeBalanced(name, ps, level + 1, indices + [k - 1], indent + Step, d);
      WalkAppend(Children(name, ps, level, indices, indent, k - 1), Tree(name, ps, level + 1, indices + [k - 1], indent + Step), d);
    }
  }

  /** No closing brace below the outermost level is the unterminated `}`. */
  lemma {:induction false} InnerClosesHaveComma(name: string, ps: seq<nat>, level: nat, indices: seq<nat>, indent: string)
    requires 0 < level <= |ps|
    ensures forall l :: l in Tree(name, ps, level, indices, indent) && l.Close? ==> !l.outer
    decreases |ps| - level, 1, 0
  {
    if level < |ps| {
      ChildrenCloses(name, ps, level, indices, indent, ps[level]);
    }
  }

  lemma {:induction false} ChildrenCloses(name: string, ps: seq<nat>, level: nat, indices: seq<nat>, indent: string, k: nat)
    requires level < |ps|
    ensures forall l :: l in Children(name, ps, level, indices, indent, k) && l.Close? ==> !l.outer
    decreases |ps| - level, 0, k
  {
    if k > 0 {
      ChildrenCloses(name, ps, level, indices, indent, k - 1);
      InnerClosesHaveComma(name, ps, level + 1, indices + [k - 1], indent + Step);
    }
  }

  /** The braces of a generated table balance and never close an unopened
      level; every brace but the outermost closes with `},`, the outermost
      with `}` on the line before the `;`. */
  lemma TableBraces(name: string, ps: seq<nat>)
    ensures Walk(Table(name, ps), 0) == Some(0)
    ensures var t := Table(name, ps);
      |ps| > 0 ==>
        (t[|t| - 2] == Close(Step, true) && t[|t| - 1] == Terminator
         && forall k :: 0 <= k < |t| - 2 && t[k].Close? ==> !t[k].outer)
  {
    var tree := Tree(name, ps, 0, [], Step);
    TreeBalanced(name, ps, 0, [], Step, 0);
    WalkAppend([Decl(name, ps)], tree, 0);
    WalkAppend([Decl(name, ps)] + tree, [Terminator], 0);
    if |ps| > 0 {
      var t := Table(name, ps);
      var c := Children(name, ps, 0, [], Step, ps[0]);
      ChildrenCloses(name, ps, 0, [], Step, ps[0]);
      assert t == [Decl(name, ps), Open(Step)] + c + [Close(Step, true), Terminator];
      forall k | 0 <= k < |t| - 2 && t[k].Close?
        ensures !t[k].outer
      {
        assert t[k] in c;
      }
    }
  }

  // ---------------------------------------------------------------------
  // The generator.

  /** `generate_table`'s locals: the name, the ranges and the shared `lines`
      list that the nested `recurse` appends to. Each entry is kept in its
      structured form; `Render` spells it as the f-string does. */
  class Generator {
    const name: string
    const parameters: seq<nat>
    var lines: seq<Line>

    constructor (name: string, parameters: seq<nat>)
      ensures this.name == name && this.parameters == parameters && lines == []
    {
      this.name, this.parameters, lines := name, parameters, [];
    }

    /** `recurse(level, indices, indent)`. */
    method Recurse(level: nat, indices: seq<nat>, indent: string)
      requires level <= |parameters|
      modifies this
      ensures lines == old(lines) + Tree(name, parameters, level, indices, indent)
      decreases |parameters| - level
    {
      if level == |parameters| {
        lines := lines + [Leaf(indent, name, indices)];
      } else {
        lines := lines + [Open(indent)];
        ghost var before := lines;
        var i := 0;
        while i < parameters[level]
          invariant i <= parameters[level]
          invariant lines == before + Children(name, parameters, level, indices, indent, i)
        {
          Recurse(level + 1, indices + [i], indent + Step);
          i := i + 1;
        }
        if level != 0 {
          lines := lines + [Close(indent, false)];
        } else {
          lines := lines + [Close(indent, true)];
        }
      }
    }
  }

  /** `generate_table(name, parameters)`: the declaration, the nested
      initialiser and the closing `;`, joined by newlines. */
  method GenerateTable(name: string, parameters: seq<nat>) returns (code: string)
    ensures code == JoinLines(RenderAll(Table(name, parameters)))
  {
    var g := new Generator(name, parameters);
    g.lines := g.lines + [Decl(name, parameters)];
    g.Recurse(0, [], Step);
    g.lines := g.lines + [Terminator];
    assert g.lines == Table(name, parameters);
    code := JoinLines(RenderAll(g.lines));
  }

  // ---------------------------------------------------------------------
  // The tables of `__main__`.

  function Pow2(n: nat): (r: nat)
    ensures r >= 1
  {
    if n == 0 then 1 else 2 * Pow2(n - 1)
  }

  /** `tuple(1 << bw for bw in bitwidths)`. */
  function Ranges(bitwidths: seq<nat>): (ps: seq<nat>)
    ensures |ps| == |bitwidths| && forall k :: 0 <= k < |ps| ==> ps[k] == Pow2(bitwidths[k])
  {
    if bitwidths == [] then [] else [Pow2(bitwidths[0])] + Ranges(bitwidths[1..])
  }

  function Sum(xs: seq<nat>): nat
  {
    if xs == [] then 0 else xs[0] + Sum(xs[1..])
  }

  lemma {:induction false} Pow2Add(a: nat, b: nat)
    ensures Pow2(a + b) == Pow2(a) * Pow2(b)
  {
    if a > 0 {
      Pow2Add(a - 1, b);
    }
  }

  /** A table over `1 << bw` per parameter has `2^(sum of bw)` entries: one
      per combination of the parameters' bits. */
  lemma {:induction false} RangesProduct(bitwidths: seq<nat>)
    ensures Product(Ranges(bitwidths)) == Pow2(Sum(bitwidths))
  {
    if bitwidths != [] {
      RangesProduct(bitwidths[1..]);
      Pow2Add(bitwidths[0], Sum(bitwidths[1..]));
      assert Ranges(bitwidths)[1..] == Ranges(bitwidths[1..]);
    }
  }

  /** The five bit-width lists of `__main__`. */
  const PixelFlushTspBits: seq<nat> := [1, 1, 1, 1, 1, 2, 1]
  const TextureFilterBits: seq<nat> := [1, 1, 1, 1, 1, 2]
  const ColorCombinerBits: seq<nat> := [1, 1, 2]
  const BlendingUnitBits: seq<nat> := [1, 1, 3, 3]
  const TextureFetchBits: seq<nat> := [1, 1, 1, 1, 3]

  /** The entries of each generated table. */
  lemma MainTableSizes()
    ensures Product(Ranges(PixelFlushTspBits)) == 256 && Ranges(PixelFlushTspBits) == [2, 2, 2, 2, 2, 4, 2]
    ensures Product(Ranges(TextureFilterBits)) == 128 && Ranges(TextureFilterBits) == [2, 2, 2, 2, 2, 4]
    ensures Product(Ranges(ColorCombinerBits)) == 16 && Ranges(ColorCombinerBits) == [2, 2, 4]
    ensures Product(Ranges(BlendingUnitBits)) == 256 && Ranges(BlendingUnitBits) == [2, 2, 8, 8]
    ensures Product(Ranges(TextureFetchBits)) == 128 && Ranges(TextureFetchBits) == [2, 2, 2, 2, 8]
  {
    PixelFlushTspSize();
    TextureFilterSize();
    ColorCombinerSize();
    BlendingUnitSize();
    TextureFetchSize();
  }

  lemma PixelFlushTspSize()
    ensures Product(Ranges(PixelFlushTspBits)) == 256 && Ranges(PixelFlushTspBits) == [2, 2, 2, 2, 2, 4, 2]
  {
    RangesProduct(PixelFlushTspBits);
    assert Sum(PixelFlushTspBits) == 8;
    assert Pow2(8) == 256;
  }

  lemma TextureFilterSize()
    ensures Product(Ranges(TextureFilterBits)) == 128 && Ranges(TextureFilterBits) == [2, 2, 2, 2, 2, 4]
  {
    RangesProduct(TextureFilterBits);
    assert Sum(TextureFilterBits) == 7;
    assert Pow2(7) == 128;
  }

  lemma ColorCombinerSize()
    ensures Product(Ranges(ColorCombinerBits)) == 16 && Ranges(ColorCombinerBits) == [2, 2, 4]
  {
    RangesProduct(ColorCombinerBits);
    assert Sum(ColorCombinerBits) == 4;
    assert Pow2(4) == 16;
  }

  lemma BlendingUnitSize()
    ensures Product(Ranges(BlendingUnitBits)) == 256 && Ranges(BlendingUnitBits) == [2, 2, 8, 8]
  {
    RangesProduct(BlendingUnitBits);
    assert Sum(BlendingUnitBits) == 8;
    assert Pow2(8) == 256;
  }

  lemma TextureFetchSize()
    ensures Product(Ranges(TextureFetchBits)) == 128 && Ranges(TextureFetchBits) == [2, 2, 2, 2, 8]
  {
    RangesProduct(TextureFetchBits);
    assert Sum(TextureFetchBits) == 7;
    assert Pow2(7) == 128;
  }
}
