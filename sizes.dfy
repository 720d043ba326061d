/** Font sizes and the heading levels derived from them. Sizes are only
    compared, never added or scaled, so an `int` stands for pdfplumber's
    numeric `size`. */
module FontSizes {
  import opened Wrappers

  /** At most this many sizes become heading levels (`[:3]`). */
  const MaxLevels: nat := 3

  predicate StrictlyDescending(s: seq<int>) {
    forall i, j :: 0 <= i < j < |s| ==> s[i] > s[j]
  }

  /** `max(...)` over a non-empty collection of sizes. */
  function MaxOf(s: seq<int>): (m: int)
    requires s != []
    ensures m in s
    ensures forall x :: x in s ==> x <= m
  {
    if |s| == 1 then s[0]
    else
      var rest := MaxOf(s[1..]);
      assert s == [s[0]] + s[1..];
      if s[0] >= rest then s[0] else rest
  }

  /** Putting a larger size in front keeps a list strictly descending. */
  lemma ConsDescending(x: int, s: seq<int>)
    requires StrictlyDescending(s)
    requires forall y :: y in s ==> y < x
    ensures StrictlyDescending([x] + s)
  {
    forall j | 0 <= j < |s| ensures s[j] < x {
      assert s[j] in s;
    }
  }

  /** Every element after the head of a strictly descending list is smaller
      than the head. */
  lemma TailBelowHead(s: seq<int>)
    requires StrictlyDescending(s) && s != []
    ensures forall y :: y in s[1..] ==> y < s[0]
  {
    forall y | y in s[1..] ensures y < s[0] {
      var i :| 0 <= i < |s[1..]| && s[1..][i] == y;
      assert s[i + 1] == y;
    }
  }

  /** Adds `x` to a strictly descending list of distinct sizes. */
  function Insert(x: int, s: seq<int>): (r: seq<int>)
    requires StrictlyDescending(s)
    ensures StrictlyDescending(r)
    ensures forall y :: y in r <==> y in s || y == x
  {
    if s == [] then [x]
    else if x > s[0] then [x] + s
    else if x == s[0] then s
    else
      var r := Insert(x, s[1..]);
      TailBelowHead(s);
      ConsDescending(s[0], r);
      [s[0]] + r
  }

  /** `sorted(set(xs), reverse=True)`: the distinct sizes of `xs`, largest
      first. */
  function SortDistinctDesc(xs: seq<int>): (r: seq<int>)
    ensures StrictlyDescending(r)
    ensures forall y :: y in r <==> y in xs
  {
    if xs == [] then []
    else
      var init := xs[..|xs| - 1];
      assert xs == init + [xs[|xs| - 1]];
      Insert(xs[|xs| - 1], SortDistinctDesc(init))
  }

  /** A strictly descending list is determined by its elements, so
      `SortDistinctDesc` is the one result any sort of the distinct sizes in
      reverse order can give. */
  lemma {:induction false} DescendingUnique(a: seq<int>, b: seq<int>)
    requires StrictlyDescending(a) && StrictlyDescending(b)
    requires forall y :: y in a <==> y in b
    ensures a == b
    decreases |a|
  {
    assert b != [] ==> b[0] in b;
    if a != [] {
      assert a[0] in a;
      assert b != [];
      assert b[0] in b;
      TailBelowHead(a);
      TailBelowHead(b);
      assert a[0] == b[0] by {
        assert a == [a[0]] + a[1..];
        assert b == [b[0]] + b[1..];
      }
      forall y ensures y in a[1..] <==> y in b[1..] {
        if y in a[1..] {
          var i :| 1 <= i < |a| && a[i] == y;
          assert y != b[0];
          assert y in b;
        }
        if y in b[1..] {
          var i :| 1 <= i < |b| && b[i] == y;
          assert y != a[0];
          assert y in a;
        }
      }
      DescendingUnique(a[1..], b[1..]);
    }
  }

  /** `[s for s in sorted if s != exclude]` (nothing removed when there is
      no size to exclude). */
  function Without(sorted: seq<int>, exclude: Option<int>): (r: seq<int>)
    requires StrictlyDescending(sorted)
    ensures StrictlyDescending(r)
    ensures forall y :: y in r <==> y in sorted && Some(y) != exclude
  {
    if sorted == [] then []
    else
      var rest := Without(sorted[1..], exclude);
      if Some(sorted[0]) == exclude then rest
      else
        TailBelowHead(sorted);
        ConsDescending(sorted[0], rest);
        [sorted[0]] + rest
  }

  /** The heading sizes: the document's sizes largest first, without the
      title size, cut to at most three. They are the largest remaining
      sizes: a size left out is smaller than every size kept, and fewer
      than three are kept only when nothing is left out. */
  function HeadingSizes(sorted: seq<int>, exclude: Option<int>): (hs: seq<int>)
    requires StrictlyDescending(sorted)
    ensures |hs| <= MaxLevels
    ensures StrictlyDescending(hs)
    ensures forall y :: y in hs ==> y in sorted && Some(y) != exclude
    ensures forall y, k :: y in sorted && Some(y) != exclude && k in hs && y > k ==> y in hs
    ensures |hs| < MaxLevels ==> forall y :: y in sorted && Some(y) != exclude ==> y in hs
  {
    var kept := Without(sorted, exclude);
    var n := if |kept| <= MaxLevels then |kept| else MaxLevels;
    PrefixClosedUpward(kept, n);
    kept[..n]
  }

  /** A prefix of a strictly descending list is strictly descending and
      holds every element of the list that is larger than one of its own. */
  lemma PrefixClosedUpward(s: seq<int>, n: nat)
    requires StrictlyDescending(s) && n <= |s|
    ensures StrictlyDescending(s[..n])
    ensures forall y :: y in s[..n] ==> y in s
    ensures forall y, k :: y in s && k in s[..n] && y > k ==> y in s[..n]
  {
    forall y, k | y in s && k in s[..n] && y > k ensures y in s[..n] {
      var i :| 0 <= i < |s| && s[i] == y;
      var j :| 0 <= j < n && s[..n][j] == k;
      assert i < j;
      assert s[..n][i] == y;
    }
  }

  /** `f"H{i+1}"` for a level index `i` below three. */
  function LevelLabel(i: nat): (name: string)
    requires i < MaxLevels
    ensures name in {"H1", "H2", "H3"}
    ensures |name| == 2 && name[1] as int == '1' as int + i
  {
    ['H', ('1' as int + i) as char]
  }

  /** `{size: f"H{i+1}" for i, size in enumerate(hs)}`. */
  function LevelMap(hs: seq<int>): (levels: map<int, string>)
    requires |hs| <= MaxLevels && StrictlyDescending(hs)
    ensures levels.Keys == set y | y in hs
    ensures |levels| == |hs|
    ensures forall i :: 0 <= i < |hs| ==> levels[hs[i]] == LevelLabel(i)
  {
    var levels := map i | 0 <= i < |hs| :: hs[i] := LevelLabel(i);
    DistinctElements(hs);
    assert levels.Keys == set y | y in hs;
    levels
  }

  /** The level map of the heading sizes has at most three entries, never
      has the excluded size as a key, and gives a larger size a smaller
      level number (the digit after `H`), so no two sizes share a level. */
  lemma LevelMapOrdered(sorted: seq<int>, exclude: Option<int>)
    requires StrictlyDescending(sorted)
    ensures |LevelMap(HeadingSizes(sorted, exclude))| <= MaxLevels
    ensures exclude.Some? ==> exclude.value !in LevelMap(HeadingSizes(sorted, exclude))
    ensures var levels := LevelMap(HeadingSizes(sorted, exclude));
      forall a, b :: a in levels && b in levels && a > b ==> levels[a][1] < levels[b][1]
  {
    var hs := HeadingSizes(sorted, exclude);
    var levels := LevelMap(hs);
    if exclude.Some? {
      assert exclude.value !in hs;
    }
    forall a, b | a in levels && b in levels && a > b ensures levels[a][1] < levels[b][1] {
      var i :| 0 <= i < |hs| && hs[i] == a;
      var j :| 0 <= j < |hs| && hs[j] == b;
      assert i < j;
    }
  }

  /** A strictly descending list has as many distinct elements as it is
      long. */
  lemma {:induction false} DistinctElements(s: seq<int>)
    requires StrictlyDescending(s)
    ensures |set y | y in s| == |s|
  {
    if s != [] {
      DistinctElements(s[1..]);
      TailBelowHead(s);
      assert (set y | y in s) == (set y | y in s[1..]) + {s[0]};
    }
  }
}
