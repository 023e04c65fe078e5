/** The parent relation of the category store (lib/stores/categoryStore.ts).

    Categories form a flat list linked by `parentId`. Walking up from a category follows
    `getCategoryById(parentId)` (the first record with that id) until `parentId` is null
    or empty. The list is acyclic when that walk ends from every category; this is the
    invariant `moveCategoryToParent` protects with `hasCircularDependency`. */
module CategoryHierarchy {

  import opened Wrappers
  import opened Types
  import Seqs

  function Ids(cats: seq<Category>): (r: seq<string>)
    ensures |r| == |cats| && forall i :: 0 <= i < |cats| ==> r[i] == cats[i].id
  {
    seq(|cats|, i requires 0 <= i < |cats| => cats[i].id)
  }

  /** `getCategoryById`: the first category with that id. */
  function FindById(cats: seq<Category>, id: string): (r: Option<Category>)
    ensures r.Some? ==> r.value in cats && r.value.id == id
    ensures r.None? <==> forall c :: c in cats ==> c.id != id
  {
    var i := Seqs.IndexOf(Ids(cats), id);
    if i < 0 then
      assert forall c :: c in cats ==> c.id != id by {
        forall c | c in cats ensures c.id != id {
          var k :| 0 <= k < |cats| && cats[k] == c;
          assert Ids(cats)[k] == c.id;
        }
      }
      None
    else Some(cats[i])
  }

  lemma {:induction false} FindByIdCons(cats: seq<Category>, id: string)
    requires cats != []
    ensures FindById(cats, id) == if cats[0].id == id then Some(cats[0]) else FindById(cats[1..], id)
  {
    var a := Ids(cats);
    assert a[1..] == Ids(cats[1..]);
    assert a[0] == cats[0].id;
    var k := Seqs.IndexOf(a[1..], id);
    if cats[0].id != id {
      assert Seqs.IndexOf(a, id) == if k < 0 then -1 else k + 1;
      if k >= 0 {
        assert cats[k + 1] == cats[1..][k];
      }
    }
  }

  /** Lists with the same ids at the same positions find at the same position. */
  lemma SameIdsSameFind(a: seq<Category>, b: seq<Category>, id: string)
    requires Ids(a) == Ids(b)
    ensures FindById(a, id).Some? == FindById(b, id).Some?
    ensures FindById(a, id).Some? ==>
      exists i :: 0 <= i < |a| && FindById(a, id) == Some(a[i]) && FindById(b, id) == Some(b[i])
  {
    var i := Seqs.IndexOf(Ids(a), id);
    if i >= 0 {
      assert FindById(a, id) == Some(a[i]) && FindById(b, id) == Some(b[i]);
    }
  }

  predicate UniqueIds(cats: seq<Category>)
  {
    forall i, j :: 0 <= i < j < |cats| ==> cats[i].id != cats[j].id
  }

  predicate NonEmptyIds(cats: seq<Category>)
  {
    forall c :: c in cats ==> c.id != ""
  }

  /** With unique ids, looking up a category's own id finds that category. */
  lemma FindOwnId(cats: seq<Category>, c: Category)
    requires UniqueIds(cats) && c in cats
    ensures FindById(cats, c.id) == Some(c)
  {
    var k :| 0 <= k < |cats| && cats[k] == c;
    var i := Seqs.IndexOf(Ids(cats), c.id);
    assert Ids(cats)[k] == c.id;
    assert i >= 0 && cats[i].id == cats[k].id;
  }

  /** One step of the walk in `getCategoryPath` and `hasCircularDependency`:
      `current.parentId ? getCategoryById(current.parentId) : undefined`. */
  function ParentOf(cats: seq<Category>, c: Category): (r: Option<Category>)
    ensures r.Some? ==> r.value in cats && c.parentId == Some(r.value.id) && r.value.id != ""
  {
    if c.parentId.Some? && c.parentId.value != "" then FindById(cats, c.parentId.value) else None
  }

  /** The upward walk from `c` stops within `n` steps. */
  predicate EndsWithin(cats: seq<Category>, c: Category, n: nat)
    decreases n
  {
    n > 0 && (ParentOf(cats, c).None? || EndsWithin(cats, ParentOf(cats, c).value, n - 1))
  }

  ghost predicate Grounded(cats: seq<Category>, c: Category)
  {
    exists n :: EndsWithin(cats, c, n)
  }

  /** Every category's parent chain ends. */
  ghost predicate Acyclic(cats: seq<Category>)
  {
    forall c :: c in cats ==> Grounded(cats, c)
  }

  /** The invariant a well-formed category list keeps: generated ids are unique and
      non-empty, and the hierarchy has no cycle. */
  ghost predicate Valid(cats: seq<Category>)
  {
    UniqueIds(cats) && NonEmptyIds(cats) && Acyclic(cats)
  }

  /** The first `n` categories of the walk up from `c`. */
  function Chain(cats: seq<Category>, c: Category, n: nat): seq<Category>
    decreases n
  {
    if n == 0 then []
    else match ParentOf(cats, c)
      case None => [c]
      case Some(p) => [c] + Chain(cats, p, n - 1)
  }

  /** The whole walk up from a grounded category: itself, its parent, ..., a category
      without a (findable) parent. */
  ghost function Lineage(cats: seq<Category>, c: Category): seq<Category>
    requires Grounded(cats, c)
  {
    var n :| EndsWithin(cats, c, n);
    Chain(cats, c, n)
  }

  lemma {:induction false} EndsWithinMono(cats: seq<Category>, c: Category, n: nat, m: nat)
    requires EndsWithin(cats, c, n) && n <= m
    ensures EndsWithin(cats, c, m) && Chain(cats, c, n) == Chain(cats, c, m)
    decreases n
  {
    match ParentOf(cats, c)
    case None =>
    case Some(p) => EndsWithinMono(cats, p, n - 1, m - 1);
  }

  lemma LineageIsChain(cats: seq<Category>, c: Category, n: nat)
    requires EndsWithin(cats, c, n)
    ensures Grounded(cats, c) && Lineage(cats, c) == Chain(cats, c, n)
  {
    var k: nat :| EndsWithin(cats, c, k) && Lineage(cats, c) == Chain(cats, c, k);
    if k <= n { EndsWithinMono(cats, c, k, n); } else { EndsWithinMono(cats, c, n, k); }
  }

  /** The lineage starts with the category itself and continues with its parent's. */
  lemma LineageUnfold(cats: seq<Category>, c: Category)
    requires Grounded(cats, c)
    ensures ParentOf(cats, c).None? ==> Lineage(cats, c) == [c]
    ensures ParentOf(cats, c).Some? ==>
      Grounded(cats, ParentOf(cats, c).value)
      && Lineage(cats, c) == [c] + Lineage(cats, ParentOf(cats, c).value)
  {
    var n: nat :| EndsWithin(cats, c, n);
    LineageIsChain(cats, c, n);
    if ParentOf(cats, c).Some? {
      LineageIsChain(cats, ParentOf(cats, c).value, n - 1);
    }
  }

  /** Every suffix of a lineage is the lineage of its first element. */
  lemma {:induction false} LineageSuffix(cats: seq<Category>, c: Category, i: nat)
    requires Grounded(cats, c) && i < |Lineage(cats, c)|
    ensures Grounded(cats, Lineage(cats, c)[i])
    ensures Lineage(cats, c)[i..] == Lineage(cats, Lineage(cats, c)[i])
    decreases i
  {
    LineageUnfold(cats, c);
    if i > 0 {
      var p := ParentOf(cats, c).value;
      assert Lineage(cats, c)[i] == Lineage(cats, p)[i - 1];
      LineageSuffix(cats, p, i - 1);
      assert Lineage(cats, c)[i..] == Lineage(cats, p)[i - 1..];
    }
  }

  /** Consecutive entries of a lineage are child and parent, and the walk ends where
      the last entry has no findable parent. */
  lemma LineageLinks(cats: seq<Category>, c: Category)
    requires Grounded(cats, c)
    ensures |Lineage(cats, c)| >= 1 && Lineage(cats, c)[0] == c
    ensures forall i :: 0 <= i < |Lineage(cats, c)| - 1 ==>
      ParentOf(cats, Lineage(cats, c)[i]) == Some(Lineage(cats, c)[i + 1])
    ensures ParentOf(cats, Lineage(cats, c)[|Lineage(cats, c)| - 1]).None?
  {
    var l := Lineage(cats, c);
    LineageUnfold(cats, c);
    forall i | 0 <= i < |l| - 1 ensures ParentOf(cats, l[i]) == Some(l[i + 1]) {
      LineageSuffix(cats, c, i);
      LineageUnfold(cats, l[i]);
      assert l[i..][1] == l[i + 1];
    }
    LineageSuffix(cats, c, |l| - 1);
    LineageUnfold(cats, l[|l| - 1]);
    assert l[|l| - 1..] == [l[|l| - 1]];
  }

  /** A category never occurs again further up its own lineage. */
  lemma LineageNoReturn(cats: seq<Category>, c: Category)
    requires Grounded(cats, c)
    ensures c !in Lineage(cats, c)[1..]
  {
    var l := Lineage(cats, c);
    LineageUnfold(cats, c);
    forall j | 1 <= j < |l| ensures l[j] != c {
      LineageSuffix(cats, c, j);
      assert |l[j..]| < |l|;
    }
  }

  /** Every entry of a lineage belongs to the list (the walk only finds listed categories). */
  lemma LineageInList(cats: seq<Category>, c: Category)
    requires Grounded(cats, c) && c in cats
    ensures forall a :: a in Lineage(cats, c) ==> a in cats
  {
    var l := Lineage(cats, c);
    LineageLinks(cats, c);
    forall a | a in l ensures a in cats {
      var i :| 0 <= i < |l| && l[i] == a;
      if i > 0 {
        assert ParentOf(cats, l[i - 1]) == Some(a);
      }
    }
  }

  /** `id` names `c` or one of its ancestors. */
  ghost predicate AncestorOrSelfId(cats: seq<Category>, id: string, c: Category)
    requires Grounded(cats, c)
  {
    exists a :: a in Lineage(cats, c) && a.id == id
  }

  /** With unique ids a category is listed at most once. */
  lemma {:induction false} UniqueCount(cats: seq<Category>, x: Category)
    requires UniqueIds(cats)
    ensures multiset(cats)[x] <= 1
  {
    if cats != [] {
      UniqueCount(cats[1..], x);
      assert cats == [cats[0]] + cats[1..];
      if cats[0] == x {
        forall k | 0 <= k < |cats[1..]| ensures cats[1..][k] != x {
          assert cats[k + 1].id != cats[0].id;
        }
      }
    }
  }

  /** Two lists with the same ids and the same parent fields, position by position. */
  predicate SameShape(a: seq<Category>, b: seq<Category>)
  {
    |a| == |b| && forall i :: 0 <= i < |a| ==> a[i].id == b[i].id && a[i].parentId == b[i].parentId
  }

  lemma {:induction false} SameShapeWalk(a: seq<Category>, b: seq<Category>, i: nat, n: nat)
    requires SameShape(a, b) && i < |a| && EndsWithin(a, a[i], n)
    ensures EndsWithin(b, b[i], n)
    decreases n
  {
    assert Ids(a) == Ids(b);
    var pid := a[i].parentId;
    if pid.Some? && pid.value != "" {
      SameIdsSameFind(a, b, pid.value);
      if FindById(a, pid.value).Some? {
        var j :| 0 <= j < |a| && FindById(a, pid.value) == Some(a[j]) && FindById(b, pid.value) == Some(b[j]);
        SameShapeWalk(a, b, j, n - 1);
      }
    }
  }

  /** Changing only fields other than `id` and `parentId` keeps the store invariant: the
      hierarchy is the same. */
  lemma SameShapeValid(a: seq<Category>, b: seq<Category>)
    requires SameShape(a, b) && Valid(a)
    ensures Valid(b)
  {
    forall i, j | 0 <= i < j < |b| ensures b[i].id != b[j].id {
      assert a[i].id != a[j].id;
    }
    forall c | c in b ensures c.id != "" && Grounded(b, c) {
      var i :| 0 <= i < |b| && b[i] == c;
      assert a[i] in a;
      var n: nat :| EndsWithin(a, a[i], n);
      SameShapeWalk(a, b, i, n);
    }
  }

  /** One step of the ancestor test: `id` names `c` or one of its ancestors exactly when it
      names `c` or its parent names it or an ancestor. */
  lemma AncestorStep(cats: seq<Category>, id: string, c: Category)
    requires Grounded(cats, c)
    ensures ParentOf(cats, c).Some? ==> Grounded(cats, ParentOf(cats, c).value)
    ensures AncestorOrSelfId(cats, id, c) <==>
      c.id == id || (ParentOf(cats, c).Some? && AncestorOrSelfId(cats, id, ParentOf(cats, c).value))
  {
    LineageUnfold(cats, c);
    if ParentOf(cats, c).Some? {
      var l := Lineage(cats, ParentOf(cats, c).value);
      assert forall a :: a in Lineage(cats, c) <==> a == c || a in l;
    }
  }

  /** With unique ids, two different listed categories have different ids. */
  lemma DistinctIds(cats: seq<Category>, x: Category, y: Category)
    requires UniqueIds(cats) && x in cats && y in cats && x != y
    ensures x.id != y.id
  {
    var a :| 0 <= a < |cats| && cats[a] == x;
    var b :| 0 <= b < |cats| && cats[b] == y;
    assert a != b;
  }

  /** Filtering keeps ids unique. */
  lemma FilterUnique(cats: seq<Category>, p: Category -> bool)
    requires UniqueIds(cats)
    ensures UniqueIds(Seqs.Filter(cats, p))
  {
    var f := Seqs.Filter(cats, p);
    forall i, j | 0 <= i < j < |f| ensures f[i].id != f[j].id {
      Seqs.FilterCount(cats, p, f[i]);
      UniqueCount(cats, f[i]);
      assert f[i] in multiset(f);
      Seqs.TwoPositions(f, i, j);
      assert f[i] in cats && f[j] in cats;
      DistinctIds(cats, f[i], f[j]);
    }
  }
}
