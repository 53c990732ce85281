/** Key order shared by the two reduces that group questions by category
    (index.tsx:511-517 and index.tsx:610-623): each key once, in order of
    first appearance. The key type is left generic. */
module Grouping {

  predicate Distinct<K(==)>(ks: seq<K>) {
    forall i, j :: 0 <= i < j < |ks| ==> ks[i] != ks[j]
  }

  /** The keys of `ks[..n]`, each once, in order of first appearance. */
  function FirstAppearance<K(==)>(ks: seq<K>, n: int): seq<K>
    requires 0 <= n <= |ks|
  {
    if n == 0 then []
    else
      var order := FirstAppearance(ks, n - 1);
      if ks[n - 1] in order then order else order + [ks[n - 1]]
  }

  /** `FirstAppearance` lists every key of the prefix exactly once and nothing else. */
  lemma {:induction false} FirstAppearanceFacts<K>(ks: seq<K>, n: int)
    requires 0 <= n <= |ks|
    ensures Distinct(FirstAppearance(ks, n))
    ensures forall i :: 0 <= i < n ==> ks[i] in FirstAppearance(ks, n)
    ensures forall c :: c in FirstAppearance(ks, n) ==> exists i :: 0 <= i < n && ks[i] == c
  {
    if n > 0 {
      FirstAppearanceFacts(ks, n - 1);
      var order := FirstAppearance(ks, n - 1);
      forall c | c in FirstAppearance(ks, n)
        ensures exists i :: 0 <= i < n && ks[i] == c
      {
        if c != ks[n - 1] {
          assert c in order;
          var i :| 0 <= i < n - 1 && ks[i] == c;
          assert 0 <= i < n && ks[i] == c;
        }
      }
    }
  }

  lemma FirstAppearanceDistinct<K>(ks: seq<K>, n: int)
    requires 0 <= n <= |ks|
    ensures Distinct(FirstAppearance(ks, n))
  {
    FirstAppearanceFacts(ks, n);
  }

  /** One group of the review screen's accumulator: a key and the items pushed to it. */
  datatype Group<K, T> = Group(key: K, items: seq<T>)

  function Keys<K, T>(g: seq<Group<K, T>>): (ks: seq<K>)
    ensures |ks| == |g| && forall j :: 0 <= j < |g| ==> ks[j] == g[j].key
  {
    seq(|g|, j requires 0 <= j < |g| => g[j].key)
  }

  /** `acc.find(s => s.category === c)`, as the index of the first group with
      key `c`, or `|g|` when there is none. */
  function FindGroup<K(==), T>(g: seq<Group<K, T>>, c: K): (k: nat)
    ensures k <= |g|
    ensures k < |g| ==> g[k].key == c
    ensures forall j :: 0 <= j < k ==> g[j].key != c
  {
    if g == [] then 0
    else if g[0].key == c then 0
    else
      var k := FindGroup(g[1..], c);
      assert forall j :: 0 <= j < |g| - 1 ==> g[1..][j] == g[j + 1];
      k + 1
  }

  /** One reduce step: the item joins the first group with its key, or a new
      group of its own at the end when no group has that key. */
  function AddToGroup<K(==), T>(g: seq<Group<K, T>>, c: K, x: T): seq<Group<K, T>> {
    if g == [] then [Group(c, [x])]
    else if g[0].key == c then [g[0].(items := g[0].items + [x])] + g[1..]
    else [g[0]] + AddToGroup(g[1..], c, x)
  }

  /** The step as the callback writes it, when a group has the key: the item is
      appended to the group `find` returns. */
  lemma {:induction false} AddToFoundGroup<K, T>(g: seq<Group<K, T>>, c: K, x: T)
    requires FindGroup(g, c) < |g|
    ensures AddToGroup(g, c, x) ==
      g[FindGroup(g, c) := g[FindGroup(g, c)].(items := g[FindGroup(g, c)].items + [x])]
  {
    if g[0].key != c {
      AddToFoundGroup(g[1..], c, x);
      assert FindGroup(g, c) == FindGroup(g[1..], c) + 1;
    }
  }

  /** The step as the callback writes it, when no group has the key: a group is
      pushed, `find` returns it, and the item is appended to it. */
  lemma {:induction false} AddToPushedGroup<K, T>(g: seq<Group<K, T>>, c: K, x: T)
    requires FindGroup(g, c) == |g|
    ensures FindGroup(g + [Group(c, [])], c) == |g|
    ensures AddToGroup(g, c, x) == g + [Group(c, [x])]
  {
    var g' := g + [Group(c, [])];
    assert g'[|g|].key == c;
    if g != [] {
      AddToPushedGroup(g[1..], c, x);
      assert FindGroup(g, c) == FindGroup(g[1..], c) + 1;
      assert g'[1..] == g[1..] + [Group(c, [])];
    }
  }

  /** Position `j` of one step's result: the group `find` returns has the item
      appended, the new group (if any) is at the end, every other group is unchanged. */
  lemma {:induction false} AddToGroupAt<K, T>(g: seq<Group<K, T>>, c: K, x: T, j: int)
    requires 0 <= j < |AddToGroup(g, c, x)|
    ensures j < |g| ==>
      AddToGroup(g, c, x)[j] == if j == FindGroup(g, c) then g[j].(items := g[j].items + [x]) else g[j]
    ensures j >= |g| ==> j == |g| == FindGroup(g, c) && AddToGroup(g, c, x)[j] == Group(c, [x])
  {
    if g != [] && g[0].key != c && j > 0 {
      AddToGroupAt(g[1..], c, x, j - 1);
      assert FindGroup(g, c) == FindGroup(g[1..], c) + 1;
    }
  }

  /** One step adds a group exactly when no group has the key. */
  lemma {:induction false} AddToGroupLength<K, T>(g: seq<Group<K, T>>, c: K, x: T)
    ensures |AddToGroup(g, c, x)| == if FindGroup(g, c) == |g| then |g| + 1 else |g|
  {
    if g != [] && g[0].key != c {
      AddToGroupLength(g[1..], c, x);
      assert FindGroup(g, c) == FindGroup(g[1..], c) + 1;
    }
  }

  /** The accumulator after the reduce has visited the first `n` items, item
      `i` having key `ks[i]`. */
  function GroupUpTo<K(==), T>(ks: seq<K>, xs: seq<T>, n: int): seq<Group<K, T>>
    requires 0 <= n <= |ks| == |xs|
  {
    if n == 0 then [] else AddToGroup(GroupUpTo(ks, xs, n - 1), ks[n - 1], xs[n - 1])
  }

  /** The items among the first `n` whose key is `c`, in their order. */
  ghost function ItemsWithKey<K, T>(ks: seq<K>, xs: seq<T>, c: K, n: int): seq<T>
    requires 0 <= n <= |ks| == |xs|
  {
    if n == 0 then []
    else ItemsWithKey(ks, xs, c, n - 1) + (if ks[n - 1] == c then [xs[n - 1]] else [])
  }

  lemma FindGroupAbsent<K, T>(g: seq<Group<K, T>>, c: K)
    ensures FindGroup(g, c) == |g| <==> c !in Keys(g)
  {
    var k := FindGroup(g, c);
    if k < |g| {
      assert Keys(g)[k] == c;
    }
  }

  /** A key that does not occur among the first `n` items collects nothing. */
  lemma {:induction false} AbsentKeyCollectsNothing<K, T>(ks: seq<K>, xs: seq<T>, c: K, n: int)
    requires 0 <= n <= |ks| == |xs|
    requires forall i :: 0 <= i < n ==> ks[i] != c
    ensures ItemsWithKey(ks, xs, c, n) == []
  {
    if n > 0 {
      AbsentKeyCollectsNothing(ks, xs, c, n - 1);
    }
  }

  /** The keys of one step's result: the old keys, the new key appended when it is new. */
  lemma AddToGroupKeys<K, T>(g: seq<Group<K, T>>, c: K, x: T)
    ensures Keys(AddToGroup(g, c, x)) == if c in Keys(g) then Keys(g) else Keys(g) + [c]
  {
    FindGroupAbsent(g, c);
    AddToGroupLength(g, c, x);
    var r := AddToGroup(g, c, x);
    forall j | 0 <= j < |r|
      ensures Keys(r)[j] == (if c in Keys(g) then Keys(g) else Keys(g) + [c])[j]
    {
      AddToGroupAt(g, c, x, j);
    }
  }

  /** The groups come in first-appearance order of their keys. */
  lemma {:induction false} GroupOrder<K, T>(ks: seq<K>, xs: seq<T>, n: int)
    requires 0 <= n <= |ks| == |xs|
    ensures Keys(GroupUpTo(ks, xs, n)) == FirstAppearance(ks, n)
  {
    if n > 0 {
      GroupOrder(ks, xs, n - 1);
      var g := GroupUpTo(ks, xs, n - 1);
      var c := ks[n - 1];
      assert GroupUpTo(ks, xs, n) == AddToGroup(g, c, xs[n - 1]);
      AddToGroupKeys(g, c, xs[n - 1]);
      var order := FirstAppearance(ks, n - 1);
      assert FirstAppearance(ks, n) == if c in order then order else order + [c];
    }
  }

  /** The groups of one step's result: the item joins the group with its key,
      every other group is unchanged, and a new key gets a group of its own at the end. */
  lemma AddToGroupItems<K, T>(g: seq<Group<K, T>>, c: K, x: T, j: int)
    requires Distinct(Keys(g))
    requires 0 <= j < |AddToGroup(g, c, x)|
    ensures j < |g| ==>
      AddToGroup(g, c, x)[j].key == g[j].key &&
      AddToGroup(g, c, x)[j].items == g[j].items + (if g[j].key == c then [x] else [])
    ensures j >= |g| ==> j == |g| && c !in Keys(g) && AddToGroup(g, c, x)[j] == Group(c, [x])
  {
    FindGroupAbsent(g, c);
    AddToGroupAt(g, c, x, j);
    if FindGroup(g, c) < |g| && j < |g| && g[j].key == c {
      assert Keys(g)[j] == Keys(g)[FindGroup(g, c)];
    }
  }

  lemma FirstAppearanceCovers<K>(ks: seq<K>, n: int)
    requires 0 <= n <= |ks|
    ensures forall i :: 0 <= i < n ==> ks[i] in FirstAppearance(ks, n)
  {
    FirstAppearanceFacts(ks, n);
  }

  /** One step of `GroupContents`, for the group at position `j` of `g`'s successor. */
  lemma GroupContentsStep<K, T>(ks: seq<K>, xs: seq<T>, n: int, g: seq<Group<K, T>>, j: int)
    requires 0 < n <= |ks| == |xs|
    requires Keys(g) == FirstAppearance(ks, n - 1)
    requires forall i :: 0 <= i < |g| ==> g[i].items == ItemsWithKey(ks, xs, g[i].key, n - 1)
    requires 0 <= j < |AddToGroup(g, ks[n - 1], xs[n - 1])|
    ensures AddToGroup(g, ks[n - 1], xs[n - 1])[j].items ==
      ItemsWithKey(ks, xs, AddToGroup(g, ks[n - 1], xs[n - 1])[j].key, n)
  {
    var c, x := ks[n - 1], xs[n - 1];
    var d := AddToGroup(g, c, x)[j];
    FirstAppearanceDistinct(ks, n - 1);
    AddToGroupItems(g, c, x, j);
    assert ItemsWithKey(ks, xs, d.key, n) ==
      ItemsWithKey(ks, xs, d.key, n - 1) + (if c == d.key then [x] else []);
    if j < |g| {
      assert d.items == ItemsWithKey(ks, xs, g[j].key, n - 1) + (if g[j].key == c then [x] else []);
    } else {
      assert c !in FirstAppearance(ks, n - 1);
      FirstAppearanceCovers(ks, n - 1);
      AbsentKeyCollectsNothing(ks, xs, c, n - 1);
      assert d.items == [] + [x];
    }
  }

  /** Every group holds exactly the items with its key, in their original order. */
  lemma {:induction false} GroupContents<K, T>(ks: seq<K>, xs: seq<T>, n: int)
    requires 0 <= n <= |ks| == |xs|
    ensures forall j :: 0 <= j < |GroupUpTo(ks, xs, n)| ==>
      GroupUpTo(ks, xs, n)[j].items == ItemsWithKey(ks, xs, GroupUpTo(ks, xs, n)[j].key, n)
  {
    if n > 0 {
      GroupContents(ks, xs, n - 1);
      GroupOrder(ks, xs, n - 1);
      var g := GroupUpTo(ks, xs, n - 1);
      var g' := AddToGroup(g, ks[n - 1], xs[n - 1]);
      assert GroupUpTo(ks, xs, n) == g';
      forall j | 0 <= j < |g'|
        ensures g'[j].items == ItemsWithKey(ks, xs, g'[j].key, n)
      {
        GroupContentsStep(ks, xs, n, g, j);
      }
    }
  }
}
