/** First-occurrence order, shared by the exporter's mesh grouping and its
    collision-vertex dedup and by the repacker's tables. */
module SeqUtil {

  /** Extending a prefix by the next element. */
  lemma PrefixSnoc<T>(s: seq<T>, i: nat)
    requires i < |s|
    ensures s[..i + 1] == s[..i] + [s[i]]
  {
  }

  /** The distinct elements of `s` in the order they first appear. */
  ghost function Distinct<T>(s: seq<T>): seq<T>
  {
    if |s| == 0 then []
    else
      var d := Distinct(s[..|s| - 1]);
      if s[|s| - 1] in d then d else d + [s[|s| - 1]]
  }

  ghost predicate NoDuplicates<T>(s: seq<T>)
  {
    forall i, j :: 0 <= i < j < |s| ==> s[i] != s[j]
  }

  lemma {:induction false} DistinctProperties<T>(s: seq<T>)
    ensures forall x :: x in Distinct(s) <==> x in s
    ensures NoDuplicates(Distinct(s))
  {
    if |s| > 0 {
      var p := s[..|s| - 1];
      DistinctProperties(p);
      assert s == p + [s[|s| - 1]];
    }
  }

  /** One element more: first-occurrence order grows only by an unseen element. */
  lemma DistinctSnoc<T>(s: seq<T>, x: T)
    ensures Distinct(s + [x]) == if x in s then Distinct(s) else Distinct(s) + [x]
  {
    assert (s + [x])[..|s|] == s;
    DistinctProperties(s);
  }

  /** `index` maps every element of `list` to its position in it; the
      dictionary-plus-list pair the exporter keeps for first-seen numbering. */
  ghost predicate Indexed<T(!new)>(list: seq<T>, index: map<T, int>)
  {
    && (forall x :: x in index <==> x in list)
    && (forall x :: x in index ==> 0 <= index[x] < |list| && list[index[x]] == x)
  }

  /** Appending an unseen element under the next number keeps the pairing. */
  lemma IndexedAppend<T(!new)>(list: seq<T>, index: map<T, int>, x: T)
    requires Indexed(list, index) && x !in index
    ensures Indexed(list + [x], index[x := |list|])
    ensures |index[x := |list|]| == |index| + 1
  {
    var l', i' := list + [x], index[x := |list|];
    forall y | y in i' ensures 0 <= i'[y] < |l'| && l'[i'[y]] == y {
      if y != x {
        assert l'[i'[y]] == list[index[y]];
      }
    }
  }

  /** The first place of `x` in `s`, or `|s|` when it is absent: what a
      `List.IndexOf` returns, with `|s|` for -1. */
  function IndexIn<T(==)>(s: seq<T>, x: T): (r: nat)
    ensures r <= |s|
    ensures r < |s| <==> x in s
    ensures r < |s| ==> s[r] == x
    ensures forall j :: 0 <= j < r ==> s[j] != x
  {
    if |s| == 0 then 0
    else if s[0] == x then 0
    else 1 + IndexIn(s[1..], x)
  }

  /** Every element of `s` replaced by its place in `list`. */
  function Numbering<T(==)>(list: seq<T>, s: seq<T>): seq<int>
  {
    seq(|s|, c requires 0 <= c < |s| => IndexIn(list, s[c]))
  }

  /** With no repeats in `list`, the only way to number `s` through `list`
      is `Numbering`. */
  lemma NumberingUnique<T>(list: seq<T>, ids: seq<int>, s: seq<T>)
    requires NoDuplicates(list)
    requires |ids| == |s|
    requires forall c :: 0 <= c < |ids| ==> 0 <= ids[c] < |list| && list[ids[c]] == s[c]
    ensures ids == Numbering(list, s)
  {
    var n := Numbering(list, s);
    forall c | 0 <= c < |s| ensures ids[c] == n[c] {
      var r := IndexIn(list, s[c]);
      assert r <= ids[c];
    }
  }
}
