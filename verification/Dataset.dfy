/** dataset.py: the stratified split by Python slices, and the synthetic test set. */
module Dataset {
  import opened Prelude
  import opened Fractions
  import opened Tally

  datatype Example = Example(inputText: string, category: Option<string>, severity: Option<int>)

  function CategoryOf(e: Example): string {
    if e.category.None? || e.category.value == "" then "unknown" else e.category.value
  }

  /** No category, and the empty one, count as unknown. */
  lemma CategoryCases(e: Example)
    ensures CategoryOf(e) == "unknown" <==> e.category in {None, Some(""), Some("unknown")}
    ensures e.category.Some? && CategoryOf(e) != "unknown" ==> CategoryOf(e) == e.category.value
  {
  }

  // ----- Python arithmetic

  /** Where a slice bound lands: negative bounds count from the end, and every
      bound is clamped to the list. */
  function Bound(i: int, n: nat): (b: nat)
    ensures b <= n
  {
    if i < 0 then (if n + i < 0 then 0 else n + i) else if i > n then n else i
  }

  function Slice<T>(s: seq<T>, low: int, high: int): seq<T> {
    var a, b := Bound(low, |s|), Bound(high, |s|);
    if a <= b then s[a..b] else []
  }

  /** int(x): towards zero. */
  function Truncate(x: real): int {
    if x >= 0.0 then x.Floor else -((-x).Floor)
  }

  function Exact(n: nat, ratio: real): real {
    n as real * ratio
  }

  /** max(1, int(n * ratio)) */
  function Share(n: nat, ratio: real): (k: int)
    ensures k >= 1
  {
    var k := Truncate(Exact(n, ratio));
    if k < 1 then 1 else k
  }

  /** What a share of x examples is cut to: the whole part of x, and at least one. */
  predicate SizeFor(k: nat, x: real) {
    if x < 1.0 then k == 1 else k as real <= x < k as real + 1.0
  }

  lemma ShareIsSize(n: nat, ratio: real)
    ensures SizeFor(Share(n, ratio), n as real * ratio)
  {
  }

  // ----- one category

  datatype Parts<T> = Parts(train: seq<T>, val: seq<T>, test: seq<T>)

  function Cut<T>(s: seq<T>, nTest: int, nVal: int): Parts<T> {
    var nTrain := |s| - nTest - nVal;
    Parts(Slice(s, 0, nTrain), Slice(s, nTrain, nTrain + nVal), Slice(s, nTrain + nVal, |s|))
  }

  predicate Fits(n: nat, nTest: int, nVal: int) {
    nTest + nVal <= n || nVal >= n || nTest > n
  }

  function Size<T>(p: Parts<T>): nat {
    |p.train| + |p.val| + |p.test|
  }

  /** The three slices tile a non-empty category exactly when the requested
      sizes fit, the validation share covers it, or the test share exceeds it;
      otherwise they overlap. The test slice is never empty. */
  lemma CutTilesIff<T>(s: seq<T>, nTest: int, nVal: int)
    requires s != [] && nTest >= 1 && nVal >= 1
    ensures var p := Cut(s, nTest, nVal);
      && (Fits(|s|, nTest, nVal) ==> p.train + p.val + p.test == s)
      && (Fits(|s|, nTest, nVal) <==> Size(p) == |s|)
      && Size(p) >= |s|
      && p.test != []
  {
    var p := Cut(s, nTest, nVal);
    var n := |s|;
    var low, high := Bound(n - nTest - nVal, n), Bound(n - nTest, n);
    assert high < n;
    if low <= high {
      assert p.train == s[..low] && p.val == s[low..high] && p.test == s[high..];
    } else {
      assert p.train == s[..low] && p.val == [] && p.test == s[high..];
    }
  }

  lemma ExactBounds(n: nat, ratio: real)
    requires 0 < n && 0.0 < ratio < 1.0
    ensures 0.0 <= Exact(n, ratio) < n as real
  {
    var x := n as real;
    calc { Exact(n, ratio); == ratio * x; < { StrictProduct(ratio, 1.0, x); } 1.0 * x; == x; }
    calc { Exact(n, ratio); == ratio * x; >= { Product(0.0, ratio, x); } 0.0 * x; == 0.0; }
  }

  lemma ExactSum(n: nat, r: real, q: real)
    requires r + q <= 1.0
    ensures Exact(n, r) + Exact(n, q) <= n as real
  {
    var x := n as real;
    calc { Exact(n, r) + Exact(n, q); == x * r + x * q; == (r + q) * x; <= { Product(r + q, 1.0, x); } 1.0 * x; == x; }
  }

  /** Shares of a proper split always fit. */
  lemma ProperRatiosFit(n: nat, testRatio: real, valRatio: real)
    requires n >= 1 && Proper(testRatio, valRatio)
    ensures Fits(n, Share(n, testRatio), Share(n, valRatio))
    ensures n >= 2 ==> Share(n, testRatio) + Share(n, valRatio) <= n
  {
    hide Exact;
    ExactBounds(n, testRatio);
    ExactBounds(n, valRatio);
    ExactSum(n, testRatio, valRatio);
    SharesFit(n, Share(n, testRatio), Share(n, valRatio), Exact(n, testRatio), Exact(n, valRatio));
  }

  lemma SharesFit(n: nat, t: int, v: int, x: real, y: real)
    requires n >= 1 && 0.0 <= x < n as real && 0.0 <= y < n as real && x + y <= n as real
    requires t == 1 || t as real <= x
    requires v == 1 || v as real <= y
    ensures Fits(n, t, v)
    ensures n >= 2 ==> t + v <= n
  {
  }

  predicate Proper(testRatio: real, valRatio: real) {
    0.0 < testRatio < 1.0 && 0.0 < valRatio < 1.0 && testRatio + valRatio <= 1.0
  }

  /** The sizes of the three parts of n examples: a single one is tested, and of
      more the test and the validation part have their share. */
  predicate Proportioned(n: nat, train: nat, val: nat, test: nat, testRatio: real, valRatio: real) {
    && train + val + test == n
    && (n == 1 ==> test == 1)
    && (n >= 2 ==> SizeFor(test, n as real * testRatio) && SizeFor(val, n as real * valRatio))
  }

  lemma CutSizes<T>(s: seq<T>, t: int, v: int)
    requires t >= 1 && v >= 1
    ensures t + v <= |s| ==>
      var p := Cut(s, t, v); |p.train| == |s| - t - v && |p.val| == v && |p.test| == t
    ensures |s| == t == v == 1 ==>
      var p := Cut(s, t, v); |p.train| == |p.val| == 0 && |p.test| == 1
  {
  }

  lemma CutIsProportioned<T>(s: seq<T>, testRatio: real, valRatio: real)
    requires s != [] && Proper(testRatio, valRatio)
    ensures var p := Cut(s, Share(|s|, testRatio), Share(|s|, valRatio));
      Proportioned(|s|, |p.train|, |p.val|, |p.test|, testRatio, valRatio)
  {
    hide Share, Cut;
    ShareIsSize(|s|, testRatio);
    ShareIsSize(|s|, valRatio);
    ProperRatiosFit(|s|, testRatio, valRatio);
    CutSizes(s, Share(|s|, testRatio), Share(|s|, valRatio));
    if |s| == 1 {
      assert 1 as real * testRatio < 1.0 && 1 as real * valRatio < 1.0;
    } else {
      hide SizeFor;
    }
  }

  /** The evaluation split: everything for test, nothing for validation. The
      test slice is the whole category, and the training slice repeats it. */
  lemma EverythingToTest<T>(s: seq<T>)
    requires s != []
    ensures Cut(s, Share(|s|, 1.0), Share(|s|, 0.0)).test == s
    ensures Fits(|s|, Share(|s|, 1.0), Share(|s|, 0.0)) <==> |s| == 1
  {
    assert |s| as real * 1.0 == |s| as real && |s| as real * 0.0 == 0.0;
    assert (|s| as real).Floor == |s|;
    assert Share(|s|, 1.0) == |s| && Share(|s|, 0.0) == 1;
    assert s[0..|s|] == s;
  }

  // ----- grouping

  function OfCategory(es: seq<Example>, c: string): seq<Example> {
    if es == [] then []
    else OfCategory(es[..|es| - 1], c) + if CategoryOf(es[|es| - 1]) == c then [es[|es| - 1]] else []
  }

  /** The categories in the order in which they first occur. */
  function Categories(es: seq<Example>): seq<string> {
    if es == [] then []
    else
      var before, c := Categories(es[..|es| - 1]), CategoryOf(es[|es| - 1]);
      if c in before then before else before + [c]
  }

  ghost predicate Distinct(cs: seq<string>) {
    forall i, j :: 0 <= i < j < |cs| ==> cs[i] != cs[j]
  }

  lemma {:induction false} CategoriesAreComplete(es: seq<Example>)
    ensures Distinct(Categories(es))
    ensures forall e :: e in es ==> CategoryOf(e) in Categories(es)
    ensures forall c :: c in Categories(es) ==> OfCategory(es, c) != []
  {
    hide CategoryOf;
    if es != [] {
      var front, last := es[..|es| - 1], es[|es| - 1];
      CategoriesAreComplete(front);
      forall e | e in es
        ensures CategoryOf(e) in Categories(es)
      {
        assert e in front || e == last;
      }
      forall c | c in Categories(es)
        ensures OfCategory(es, c) != []
      {
        assert c in Categories(front) || c == CategoryOf(last);
      }
    }
  }

  lemma {:induction false} OfCategoryMembers(es: seq<Example>, c: string)
    ensures forall e :: e in OfCategory(es, c) <==> e in es && CategoryOf(e) == c
  {
    if es != [] {
      OfCategoryMembers(es[..|es| - 1], c);
      assert es == es[..|es| - 1] + [es[|es| - 1]];
    }
  }

  function Union(parts: seq<seq<Example>>): multiset<Example> {
    if parts == [] then multiset{} else Union(parts[..|parts| - 1]) + multiset(parts[|parts| - 1])
  }

  function Groups(es: seq<Example>, cs: seq<string>): seq<seq<Example>> {
    seq(|cs|, i requires 0 <= i < |cs| => OfCategory(es, cs[i]))
  }

  lemma GroupsSnoc(es: seq<Example>, front: seq<string>, c: string)
    ensures Union(Groups(es, front + [c])) == Union(Groups(es, front)) + multiset(OfCategory(es, c))
  {
    assert Groups(es, front + [c]) == Groups(es, front) + [OfCategory(es, c)];
    assert (Groups(es, front) + [OfCategory(es, c)])[..|front|] == Groups(es, front);
  }

  function Once(condition: bool, e: Example): multiset<Example> {
    if condition then multiset{e} else multiset{}
  }

  lemma OfCategorySnoc(es: seq<Example>, e: Example, c: string)
    ensures multiset(OfCategory(es + [e], c)) == multiset(OfCategory(es, c)) + Once(CategoryOf(e) == c, e)
  {
    assert (es + [e])[..|es|] == es;
  }

  lemma {:induction false} GroupsGrow(es: seq<Example>, e: Example, cs: seq<string>)
    requires Distinct(cs)
    ensures Union(Groups(es + [e], cs)) == Union(Groups(es, cs)) + Once(CategoryOf(e) in cs, e)
  {
    hide Groups, OfCategory, CategoryOf;
    if cs == [] {
      EmptyUnion(es);
      EmptyUnion(es + [e]);
    } else {
      var front, c := cs[..|cs| - 1], cs[|cs| - 1];
      assert cs == front + [c] && c !in front;
      GroupsGrow(es, e, front);
      hide Union;
      GroupsSnoc(es, front, c);
      GroupsSnoc(es + [e], front, c);
      OfCategorySnoc(es, e, c);
    }
  }

  lemma EmptyUnion(es: seq<Example>)
    ensures Union(Groups(es, [])) == multiset{}
  {
  }

  /** The categories divide the examples. */
  lemma {:induction false} GroupsCover(es: seq<Example>, cs: seq<string>)
    requires Distinct(cs) && forall e :: e in es ==> CategoryOf(e) in cs
    ensures Union(Groups(es, cs)) == multiset(es)
  {
    if es == [] {
      EmptyGroups(cs);
    } else {
      var front, last := es[..|es| - 1], es[|es| - 1];
      assert es == front + [last];
      GroupsCover(front, cs);
      GroupsGrow(front, last, cs);
    }
  }

  lemma {:induction false} EmptyGroups(cs: seq<string>)
    ensures Union(Groups([], cs)) == multiset{}
  {
    if cs != [] {
      EmptyGroups(cs[..|cs| - 1]);
      assert Groups([], cs)[..|cs| - 1] == Groups([], cs[..|cs| - 1]);
    }
  }

  // ----- the whole split, given how each category was shuffled

  function CutOf(s: seq<Example>, testRatio: real, valRatio: real): Parts<Example> {
    Cut(s, Share(|s|, testRatio), Share(|s|, valRatio))
  }

  ghost predicate FitsIn(s: seq<Example>, testRatio: real, valRatio: real) {
    Fits(|s|, Share(|s|, testRatio), Share(|s|, valRatio))
  }

  function Collect(shuffled: seq<seq<Example>>, testRatio: real, valRatio: real): Parts<Example> {
    if shuffled == [] then Parts([], [], [])
    else
      var before := Collect(shuffled[..|shuffled| - 1], testRatio, valRatio);
      var p := CutOf(shuffled[|shuffled| - 1], testRatio, valRatio);
      Parts(before.train + p.train, before.val + p.val, before.test + p.test)
  }

  function Whole(p: Parts<Example>): multiset<Example> {
    multiset(p.train) + multiset(p.val) + multiset(p.test)
  }

  ghost predicate AllFit(shuffled: seq<seq<Example>>, testRatio: real, valRatio: real) {
    forall k :: 0 <= k < |shuffled| ==> FitsIn(shuffled[k], testRatio, valRatio)
  }

  lemma WholeSize(p: Parts<Example>)
    ensures |Whole(p)| == Size(p)
  {
  }

  /** One category: as many examples as it has exactly when it fits, else more. */
  lemma CategoryConservesIff(s: seq<Example>, testRatio: real, valRatio: real)
    requires s != []
    ensures var w := Whole(CutOf(s, testRatio, valRatio));
      && (FitsIn(s, testRatio, valRatio) ==> w == multiset(s))
      && |w| >= |s|
      && (|w| == |s| ==> FitsIn(s, testRatio, valRatio))
    ensures CutOf(s, testRatio, valRatio).test != []
    ensures forall e :: e in CutOf(s, testRatio, valRatio).test ==> e in s
  {
    var p := CutOf(s, testRatio, valRatio);
    CutTilesIff(s, Share(|s|, testRatio), Share(|s|, valRatio));
    WholeSize(p);
    if p.train + p.val + p.test == s {
      TilesAsMultisets(s, p);
    }
  }

  lemma Snoc(shuffled: seq<seq<Example>>, s: seq<Example>, testRatio: real, valRatio: real)
    ensures Union(shuffled + [s]) == Union(shuffled) + multiset(s)
    ensures var before, p := Collect(shuffled, testRatio, valRatio), CutOf(s, testRatio, valRatio);
      Collect(shuffled + [s], testRatio, valRatio) ==
        Parts(before.train + p.train, before.val + p.val, before.test + p.test)
    ensures Whole(Collect(shuffled + [s], testRatio, valRatio)) ==
      Whole(Collect(shuffled, testRatio, valRatio)) + Whole(CutOf(s, testRatio, valRatio))
  {
    hide CutOf;
    assert (shuffled + [s])[..|shuffled|] == shuffled;
  }

  lemma AllFitSnoc(shuffled: seq<seq<Example>>, s: seq<Example>, testRatio: real, valRatio: real)
    ensures AllFit(shuffled + [s], testRatio, valRatio) <==>
      AllFit(shuffled, testRatio, valRatio) && FitsIn(s, testRatio, valRatio)
  {
    hide FitsIn;
    assert forall k :: 0 <= k < |shuffled| ==> (shuffled + [s])[k] == shuffled[k];
    assert (shuffled + [s])[|shuffled|] == s;
  }

  /** Nothing is lost or repeated exactly when every category fits. */
  lemma {:induction false} CollectConservesIff(shuffled: seq<seq<Example>>, testRatio: real, valRatio: real)
    requires forall k :: 0 <= k < |shuffled| ==> shuffled[k] != []
    ensures AllFit(shuffled, testRatio, valRatio) ==> Whole(Collect(shuffled, testRatio, valRatio)) == Union(shuffled)
    ensures |Whole(Collect(shuffled, testRatio, valRatio))| >= |Union(shuffled)|
    ensures |Whole(Collect(shuffled, testRatio, valRatio))| == |Union(shuffled)| ==>
      AllFit(shuffled, testRatio, valRatio)
  {
    hide CutOf, FitsIn, Whole;
    if shuffled == [] {
      NothingCollected(testRatio, valRatio);
    } else {
      var front, s := shuffled[..|shuffled| - 1], shuffled[|shuffled| - 1];
      assert shuffled == front + [s];
      CollectConservesIff(front, testRatio, valRatio);
      CategoryConservesIff(s, testRatio, valRatio);
      hide Collect, Union, AllFit;
      Snoc(front, s, testRatio, valRatio);
      AllFitSnoc(front, s, testRatio, valRatio);
    }
  }

  lemma NothingCollected(testRatio: real, valRatio: real)
    ensures Whole(Collect([], testRatio, valRatio)) == multiset{} == Union([])
  {
  }

  lemma TilesAsMultisets(s: seq<Example>, p: Parts<Example>)
    requires p.train + p.val + p.test == s
    ensures Whole(p) == multiset(s)
  {
    assert multiset(p.train + p.val + p.test) == multiset(s);
  }

  /** Every category has an example in the test part. */
  lemma {:induction false} CollectTestsEveryCategory(
    shuffled: seq<seq<Example>>, testRatio: real, valRatio: real, k: nat)
    requires forall j :: 0 <= j < |shuffled| ==> shuffled[j] != []
    requires k < |shuffled|
    ensures exists e :: e in shuffled[k] && e in Collect(shuffled, testRatio, valRatio).test
  {
    hide CutOf;
    var front, s := shuffled[..|shuffled| - 1], shuffled[|shuffled| - 1];
    assert shuffled == front + [s];
    Snoc(front, s, testRatio, valRatio);
    if k == |shuffled| - 1 {
      CategoryConservesIff(s, testRatio, valRatio);
      var e := CutOf(s, testRatio, valRatio).test[0];
      assert e in s && e in Collect(shuffled, testRatio, valRatio).test;
    } else {
      CollectTestsEveryCategory(front, testRatio, valRatio, k);
      var e :| e in front[k] && e in Collect(front, testRatio, valRatio).test;
      assert e in shuffled[k] && e in Collect(shuffled, testRatio, valRatio).test;
    }
  }

  lemma {:induction false} CollectAllForTest(shuffled: seq<seq<Example>>)
    requires forall k :: 0 <= k < |shuffled| ==> shuffled[k] != []
    ensures multiset(Collect(shuffled, 1.0, 0.0).test) == Union(shuffled)
  {
    if shuffled != [] {
      CollectAllForTest(shuffled[..|shuffled| - 1]);
      EverythingToTest(shuffled[|shuffled| - 1]);
    }
  }

  // ----- the sizes of the parts, category by category

  lemma {:induction false} OfCategoryConcat(xs: seq<Example>, ys: seq<Example>, c: string)
    ensures OfCategory(xs + ys, c) == OfCategory(xs, c) + OfCategory(ys, c)
  {
    hide CategoryOf;
    if ys == [] {
      assert xs + ys == xs;
    } else {
      assert (xs + ys)[..|xs + ys| - 1] == xs + ys[..|ys| - 1];
      OfCategoryConcat(xs, ys[..|ys| - 1], c);
    }
  }

  lemma {:induction false} OneCategory(xs: seq<Example>, own: string, c: string)
    requires forall e :: e in xs ==> CategoryOf(e) == own
    ensures |OfCategory(xs, c)| == if c == own then |xs| else 0
  {
    hide CategoryOf;
    if xs != [] {
      OneCategory(xs[..|xs| - 1], own, c);
      assert xs[|xs| - 1] in xs;
    }
  }

  lemma SliceIsAmong(s: seq<Example>, low: int, high: int)
    ensures forall e :: e in Slice(s, low, high) ==> e in s
  {
  }

  ghost predicate SizesIn(p: Parts<Example>, c: string, q: Parts<Example>) {
    && |OfCategory(p.train, c)| == |q.train|
    && |OfCategory(p.val, c)| == |q.val|
    && |OfCategory(p.test, c)| == |q.test|
  }

  lemma CutOfOneCategory(s: seq<Example>, testRatio: real, valRatio: real, own: string, c: string)
    requires forall e :: e in s ==> CategoryOf(e) == own
    ensures var p := CutOf(s, testRatio, valRatio); SizesIn(p, c, if c == own then p else Parts([], [], []))
  {
    hide OfCategory, CategoryOf, Slice, Share;
    var nTest, nVal := Share(|s|, testRatio), Share(|s|, valRatio);
    var nTrain := |s| - nTest - nVal;
    SliceIsAmong(s, 0, nTrain);
    SliceIsAmong(s, nTrain, nTrain + nVal);
    SliceIsAmong(s, nTrain + nVal, |s|);
    var p := CutOf(s, testRatio, valRatio);
    OneCategory(p.train, own, c);
    OneCategory(p.val, own, c);
    OneCategory(p.test, own, c);
  }

  ghost predicate AllIn(s: seq<Example>, c: string) {
    forall e :: e in s ==> CategoryOf(e) == c
  }

  lemma {:induction false} CollectSizes(
    shuffled: seq<seq<Example>>, cs: seq<string>, testRatio: real, valRatio: real, c: string)
    requires |shuffled| == |cs| && Distinct(cs)
    requires forall k :: 0 <= k < |cs| ==> AllIn(shuffled[k], cs[k])
    ensures c !in cs ==> SizesIn(Collect(shuffled, testRatio, valRatio), c, Parts([], [], []))
    ensures forall k :: 0 <= k < |cs| && cs[k] == c ==>
      SizesIn(Collect(shuffled, testRatio, valRatio), c, CutOf(shuffled[k], testRatio, valRatio))
  {
    hide CutOf, CategoryOf;
    if cs != [] {
      var n := |cs| - 1;
      CollectSizes(shuffled[..n], cs[..n], testRatio, valRatio, c);
      assert AllIn(shuffled[n], cs[n]);
      CutOfOneCategory(shuffled[n], testRatio, valRatio, cs[n], c);
      var before, p := Collect(shuffled[..n], testRatio, valRatio), CutOf(shuffled[n], testRatio, valRatio);
      hide OfCategory;
      OfCategoryConcat(before.train, p.train, c);
      OfCategoryConcat(before.val, p.val, c);
      OfCategoryConcat(before.test, p.test, c);
      if c == cs[n] {
        assert c !in cs[..n];
      }
    }
  }

  /** Under proper ratios every category is cut in proportion, whatever the
      shuffles before and after. */
  lemma SplitIsProportioned(es: seq<Example>, shuffled: seq<seq<Example>>, p: Parts<Example>,
                            testRatio: real, valRatio: real, c: string)
    requires ShuffledGroups(es, shuffled) && Proper(testRatio, valRatio) && c in Categories(es)
    requires var q := Collect(shuffled, testRatio, valRatio);
      multiset(p.train) == multiset(q.train) && multiset(p.val) == multiset(q.val) &&
        multiset(p.test) == multiset(q.test)
    ensures Proportioned(|OfCategory(es, c)|, |OfCategory(p.train, c)|, |OfCategory(p.val, c)|, |OfCategory(p.test, c)|,
                         testRatio, valRatio)
  {
    hide Collect, Categories, OfCategory, CategoryOf, Share, Slice, Proportioned;
    var cs, q := Categories(es), Collect(shuffled, testRatio, valRatio);
    CategoriesAreComplete(es);
    forall k | 0 <= k < |cs|
      ensures AllIn(shuffled[k], cs[k])
    {
      SameElements(shuffled[k], OfCategory(es, cs[k]));
      OfCategoryMembers(es, cs[k]);
    }
    CollectSizes(shuffled, cs, testRatio, valRatio, c);
    var k :| 0 <= k < |cs| && cs[k] == c;
    assert |multiset(shuffled[k])| == |multiset(OfCategory(es, c))|;
    CutIsProportioned(shuffled[k], testRatio, valRatio);
    ShuffleKeepsCategory(p.train, q.train, c);
    ShuffleKeepsCategory(p.val, q.val, c);
    ShuffleKeepsCategory(p.test, q.test, c);
  }

  // ----- the imperative split

  /** random.shuffle: swaps downwards with arbitrary choices. */
  method Shuffle<T>(xs: seq<T>) returns (s: seq<T>)
    ensures multiset(s) == multiset(xs)
  {
    s := xs;
    var i := |s| - 1;
    while i > 0
      invariant |s| == |xs| && i < |s|
      invariant multiset(s) == multiset(xs)
    {
      var j :| 0 <= j <= i;
      SwapKeeps(s, i, j);
      s := s[i := s[j]][j := s[i]];
      i := i - 1;
    }
  }

  lemma SwapKeeps<T>(s: seq<T>, i: nat, j: nat)
    requires i < |s| && j < |s|
    ensures multiset(s[i := s[j]][j := s[i]]) == multiset(s)
  {
  }

  /** `shuffled` is what shuffling each category of `es` in place may give. */
  ghost predicate ShuffledGroups(es: seq<Example>, shuffled: seq<seq<Example>>) {
    var cs := Categories(es);
    |shuffled| == |cs| && forall k :: 0 <= k < |cs| ==> multiset(shuffled[k]) == multiset(OfCategory(es, cs[k]))
  }

  method GroupByCategory(es: seq<Example>) returns (order: seq<string>, groups: map<string, seq<Example>>)
    ensures order == Categories(es)
    ensures forall c :: c in groups <==> c in order
    ensures forall c :: c in groups ==> groups[c] == OfCategory(es, c)
  {
    order, groups := [], map[];
    for i := 0 to |es|
      invariant order == Categories(es[..i])
      invariant forall c :: c in groups <==> c in order
      invariant forall c :: c in groups ==> groups[c] == OfCategory(es[..i], c)
      invariant forall c :: c !in order ==> OfCategory(es[..i], c) == []
    {
      assert es[..i + 1][..i] == es[..i];
      var c := CategoryOf(es[i]);
      if c !in groups {
        order, groups := order + [c], groups[c := []];
      }
      groups := groups[c := groups[c] + [es[i]]];
    }
    assert es[..|es|] == es;
  }

  method TrainTestSplit(es: seq<Example>, testRatio: real, valRatio: real)
    returns (train: seq<Example>, val: seq<Example>, test: seq<Example>, ghost shuffled: seq<seq<Example>>)
    ensures ShuffledGroups(es, shuffled)
    ensures var p := Collect(shuffled, testRatio, valRatio);
      multiset(train) == multiset(p.train) && multiset(val) == multiset(p.val) && multiset(test) == multiset(p.test)
    ensures multiset(train) + multiset(val) + multiset(test) == multiset(es) <==> AllFit(shuffled, testRatio, valRatio)
    ensures forall e :: e in es ==> exists x :: x in test && CategoryOf(x) == CategoryOf(e)
    ensures Proper(testRatio, valRatio) ==> forall c :: c in Categories(es) ==>
      Proportioned(|OfCategory(es, c)|, |OfCategory(train, c)|, |OfCategory(val, c)|, |OfCategory(test, c)|,
                   testRatio, valRatio)
  {
    hide Collect, Share, Slice, AllFit, OfCategory, Categories, Proportioned;
    var order, groups := GroupByCategory(es);
    train, val, test := [], [], [];
    shuffled := [];
    NothingCut(testRatio, valRatio);
    for k := 0 to |order|
      invariant |shuffled| == k
      invariant forall i :: 0 <= i < k ==> multiset(shuffled[i]) == multiset(OfCategory(es, order[i]))
      invariant Parts(train, val, test) == Collect(shuffled, testRatio, valRatio)
    {
      var s := Shuffle(groups[order[k]]);
      var n := |s|;
      var nTest, nVal := Share(n, testRatio), Share(n, valRatio);
      var nTrain := n - nTest - nVal;
      Snoc(shuffled, s, testRatio, valRatio);
      shuffled := shuffled + [s];
      train := train + Slice(s, 0, nTrain);
      val := val + Slice(s, nTrain, nTrain + nVal);
      test := test + Slice(s, nTrain + nVal, n);
    }
    SplitIsStratified(es, shuffled, testRatio, valRatio);
    train := Shuffle(train);
    val := Shuffle(val);
    test := Shuffle(test);
    SameElements(Collect(shuffled, testRatio, valRatio).test, test);
    forall c | Proper(testRatio, valRatio) && c in Categories(es)
      ensures Proportioned(|OfCategory(es, c)|, |OfCategory(train, c)|, |OfCategory(val, c)|, |OfCategory(test, c)|,
                           testRatio, valRatio)
    {
      SplitIsProportioned(es, shuffled, Parts(train, val, test), testRatio, valRatio, c);
    }
  }

  lemma NothingCut(testRatio: real, valRatio: real)
    ensures Collect([], testRatio, valRatio) == Parts([], [], [])
  {
  }

  lemma SameElements(xs: seq<Example>, ys: seq<Example>)
    requires multiset(xs) == multiset(ys)
    ensures forall x :: x in xs ==> x in ys
  {
    forall x | x in xs
      ensures x in ys
    {
      assert x in multiset(ys);
    }
  }

  lemma ShuffledUnion(es: seq<Example>, shuffled: seq<seq<Example>>, cs: seq<string>)
    requires |shuffled| == |cs| && forall k :: 0 <= k < |cs| ==>
      multiset(shuffled[k]) == multiset(OfCategory(es, cs[k]))
    ensures Union(shuffled) == Union(Groups(es, cs))
  {
    if cs != [] {
      ShuffledUnion(es, shuffled[..|cs| - 1], cs[..|cs| - 1]);
      assert Groups(es, cs)[..|cs| - 1] == Groups(es, cs[..|cs| - 1]);
    }
  }

  /** Over the whole dataset: the shuffled categories hold every example once,
      none is empty, and the split keeps each example exactly when all fit. */
  lemma SplitIsStratified(es: seq<Example>, shuffled: seq<seq<Example>>, testRatio: real, valRatio: real)
    requires ShuffledGroups(es, shuffled)
    ensures Union(shuffled) == multiset(es)
    ensures forall k :: 0 <= k < |shuffled| ==> shuffled[k] != []
    ensures Whole(Collect(shuffled, testRatio, valRatio)) == multiset(es) <==> AllFit(shuffled, testRatio, valRatio)
    ensures forall e :: e in es ==>
      exists x :: x in Collect(shuffled, testRatio, valRatio).test && CategoryOf(x) == CategoryOf(e)
  {
    hide CategoryOf, CutOf, OfCategory, Collect, Union, Whole, AllFit, Groups;
    var cs := Categories(es);
    CategoriesAreComplete(es);
    ShuffledUnion(es, shuffled, cs);
    GroupsCover(es, cs);
    forall k | 0 <= k < |shuffled|
      ensures shuffled[k] != []
    {
      assert |multiset(shuffled[k])| == |multiset(OfCategory(es, cs[k]))|;
    }
    CollectConservesIff(shuffled, testRatio, valRatio);
    forall e | e in es
      ensures exists x :: x in Collect(shuffled, testRatio, valRatio).test && CategoryOf(x) == CategoryOf(e)
    {
      var k :| 0 <= k < |cs| && cs[k] == CategoryOf(e);
      CollectTestsEveryCategory(shuffled, testRatio, valRatio, k);
      var x :| x in shuffled[k] && x in Collect(shuffled, testRatio, valRatio).test;
      SameElements(shuffled[k], OfCategory(es, cs[k]));
      OfCategoryMembers(es, cs[k]);
    }
  }

  /** A proper split of any dataset is a rearrangement of it. */
  lemma ProperSplitConserves(es: seq<Example>, shuffled: seq<seq<Example>>, testRatio: real, valRatio: real)
    requires ShuffledGroups(es, shuffled)
    requires Proper(testRatio, valRatio)
    ensures Whole(Collect(shuffled, testRatio, valRatio)) == multiset(es)
  {
    SplitIsStratified(es, shuffled, testRatio, valRatio);
    forall k | 0 <= k < |shuffled|
      ensures FitsIn(shuffled[k], testRatio, valRatio)
    {
      ProperRatiosFit(|shuffled[k]|, testRatio, valRatio);
    }
  }

  method GetCategoryDistribution(es: seq<Example>) returns (dist: map<string, nat>)
    ensures dist == TallyOf(CategoryColumn(es))
  {
    dist := map[];
    assert TallyOf([]) == map[];
    for i := 0 to |es|
      invariant dist == TallyOf(CategoryColumn(es[..i]))
    {
      assert CategoryColumn(es[..i + 1]) == CategoryColumn(es[..i]) + [CategoryOf(es[i])];
      TallySnoc(CategoryColumn(es[..i]), CategoryOf(es[i]));
      dist := Bump(dist, CategoryOf(es[i]));
    }
    assert es[..|es|] == es;
  }

  function CategoryColumn(es: seq<Example>): seq<string> {
    seq(|es|, i requires 0 <= i < |es| => CategoryOf(es[i]))
  }

  // ----- synthetic examples

  const SYNTHETIC_CATEGORIES := [
    "indemnification", "liability_limitation", "termination", "confidentiality", "data_privacy", "compliance",
    "payment_terms", "force_majeure", "assignment", "governing_law", "non_compete", "intellectual_property"]

  lemma SyntheticCategoriesDiffer()
    ensures Distinct(SYNTHETIC_CATEGORIES) && "" !in SYNTHETIC_CATEGORIES
  {
    assert SYNTHETIC_CATEGORIES[0][..3] == "ind" && SYNTHETIC_CATEGORIES[1][..3] == "lia" &&
      SYNTHETIC_CATEGORIES[2][..3] == "ter";
    assert SYNTHETIC_CATEGORIES[3][..4] == "conf" && SYNTHETIC_CATEGORIES[4][..3] == "dat" &&
      SYNTHETIC_CATEGORIES[5][..4] == "comp";
    assert SYNTHETIC_CATEGORIES[6][..3] == "pay" && SYNTHETIC_CATEGORIES[7][..3] == "for" &&
      SYNTHETIC_CATEGORIES[8][..3] == "ass";
    assert SYNTHETIC_CATEGORIES[9][..3] == "gov" && SYNTHETIC_CATEGORIES[10][..3] == "non" &&
      SYNTHETIC_CATEGORIES[11][..3] == "int";
  }

  /** count // 12, and nothing for a negative count. */
  function PerCategory(count: int): nat {
    if count < 0 then 0 else count / |SYNTHETIC_CATEGORIES|
  }

  /** Twelve categories of that many take up the count, but for less than twelve. */
  lemma PerCategoryFills(count: int)
    ensures count < 0 ==> PerCategory(count) == 0
    ensures count >= 0 ==> 12 * PerCategory(count) <= count < 12 * PerCategory(count) + 12
  {
  }

  /** The first `full` categories have `per` examples, the next one `some`. */
  ghost predicate Filled(es: seq<Example>, full: nat, per: nat, some: nat) {
    && |es| == full * per + some
    && forall k :: 0 <= k < |SYNTHETIC_CATEGORIES| ==>
      |OfCategory(es, SYNTHETIC_CATEGORIES[k])| == if k < full then per else if k == full then some else 0
  }

  lemma FillOne(es: seq<Example>, e: Example, full: nat, per: nat, some: nat)
    requires Filled(es, full, per, some) && full < |SYNTHETIC_CATEGORIES| && CategoryOf(e) == SYNTHETIC_CATEGORIES[full]
    ensures Filled(es + [e], full, per, some + 1)
  {
    SyntheticCategoriesDiffer();
    hide SYNTHETIC_CATEGORIES;
    assert (es + [e])[..|es|] == es;
  }

  lemma FilledNext(es: seq<Example>, full: nat, per: nat)
    requires Filled(es, full, per, per)
    ensures Filled(es, full + 1, per, 0)
  {
    hide SYNTHETIC_CATEGORIES;
    assert (full + 1) * per == full * per + per;
  }

  lemma FilledNone(per: nat)
    ensures Filled([], 0, per, 0)
  {
  }

  /** The same number of examples in each of the twelve categories. */
  method GenerateSyntheticExamples(count: int) returns (es: seq<Example>)
    ensures Filled(es, |SYNTHETIC_CATEGORIES|, PerCategory(count), 0)
    ensures forall i :: 0 <= i < |es| ==> es[i].severity.Some? && 3 <= es[i].severity.value <= 8
  {
    hide Filled;
    es := [];
    var per := PerCategory(count);
    FilledNone(per);
    SyntheticCategoriesDiffer();
    for k := 0 to |SYNTHETIC_CATEGORIES|
      invariant Filled(es, k, per, 0)
      invariant forall i :: 0 <= i < |es| ==> es[i].severity.Some? && 3 <= es[i].severity.value <= 8
    {
      var c := SYNTHETIC_CATEGORIES[k];
      assert c in SYNTHETIC_CATEGORIES;
      for j := 0 to per
        invariant Filled(es, k, per, j)
        invariant forall i :: 0 <= i < |es| ==> es[i].severity.Some? && 3 <= es[i].severity.value <= 8
      {
        var clause: string, severity: int :| 3 <= severity <= 8;
        var e := Example(clause, Some(c), Some(severity));
        FillOne(es, e, k, per, j);
        es := es + [e];
      }
      FilledNext(es, k, per);
    }
    var shuffled := Shuffle(es);
    ShuffleKeepsFilled(es, shuffled, |SYNTHETIC_CATEGORIES|, per);
    SameElements(shuffled, es);
    assert forall i :: 0 <= i < |shuffled| ==> shuffled[i] in es;
    es := shuffled;
  }

  lemma {:induction false} OfCategoryMultiplicity(es: seq<Example>, c: string, e: Example)
    ensures multiset(OfCategory(es, c))[e] == if CategoryOf(e) == c then multiset(es)[e] else 0
  {
    hide CategoryOf;
    if es != [] {
      OfCategoryMultiplicity(es[..|es| - 1], c, e);
      assert es == es[..|es| - 1] + [es[|es| - 1]];
    }
  }

  lemma ShuffleKeepsCategory(xs: seq<Example>, ys: seq<Example>, c: string)
    requires multiset(xs) == multiset(ys)
    ensures |OfCategory(xs, c)| == |OfCategory(ys, c)|
  {
    forall e
      ensures multiset(OfCategory(xs, c))[e] == multiset(OfCategory(ys, c))[e]
    {
      OfCategoryMultiplicity(xs, c, e);
      OfCategoryMultiplicity(ys, c, e);
    }
    assert multiset(OfCategory(xs, c)) == multiset(OfCategory(ys, c));
    assert |multiset(OfCategory(xs, c))| == |multiset(OfCategory(ys, c))|;
  }

  lemma ShuffleKeepsFilled(xs: seq<Example>, ys: seq<Example>, full: nat, per: nat)
    requires Filled(xs, full, per, 0) && multiset(xs) == multiset(ys)
    ensures Filled(ys, full, per, 0)
  {
    assert |multiset(xs)| == |multiset(ys)|;
    forall k | 0 <= k < |SYNTHETIC_CATEGORIES|
      ensures |OfCategory(ys, SYNTHETIC_CATEGORIES[k])| == |OfCategory(xs, SYNTHETIC_CATEGORIES[k])|
    {
      ShuffleKeepsCategory(xs, ys, SYNTHETIC_CATEGORIES[k]);
    }
  }

  /** Without a stored test set: the evaluation set is a whole synthetic set. */
  method SyntheticTestSet(numExamples: Option<int>) returns (test: seq<Example>)
    ensures var count := if numExamples.None? || numExamples.value == 0 then 200 else numExamples.value;
      Filled(test, |SYNTHETIC_CATEGORIES|, PerCategory(count), 0)
  {
    hide Filled, Collect, Union;
    var count := if numExamples.None? || numExamples.value == 0 then 200 else numExamples.value;
    var all := GenerateSyntheticExamples(count);
    var train, val;
    ghost var shuffled;
    train, val, test, shuffled := TrainTestSplit(all, 1.0, 0.0);
    SplitIsStratified(all, shuffled, 1.0, 0.0);
    CollectAllForTest(shuffled);
    ShuffleKeepsFilled(all, test, |SYNTHETIC_CATEGORIES|, PerCategory(count));
  }
}
