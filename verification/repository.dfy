/** `Repository<T>`: a list of entities with predicate-based lookup and removal.
    `T`'s `Equals` is passed in as `eq`, because `List.Remove` locates the element
    to delete with it; `None` stands for a `null` argument or result. */
module Repository {
  import opened Wrappers
  import opened Lists

  /** The answer of `Remove`: whether anything was deleted, and the list afterwards. */
  datatype Removal<T> = Removal(removed: bool, items: seq<T>)

  /** `Count`. */
  function Count<T>(xs: seq<T>): nat {
    |xs|
  }

  /** Index of the first element satisfying `p`, if any. */
  function FirstIndex<T>(xs: seq<T>, p: T -> bool): (r: Option<nat>)
    ensures r.Some? ==> r.value < |xs| && p(xs[r.value])
    ensures r.Some? ==> forall j :: 0 <= j < r.value ==> !p(xs[j])
    ensures r.None? <==> forall j :: 0 <= j < |xs| ==> !p(xs[j])
  {
    if |xs| == 0 then None
    else if p(xs[0]) then Some(0)
    else match FirstIndex(xs[1..], p)
      case None => None
      case Some(i) => Some(i + 1)
  }

  /** `Add`: a null item is ignored; any other item is appended, duplicates included. */
  function Add<T>(xs: seq<T>, item: Option<T>): (r: seq<T>)
    ensures item.None? ==> r == xs
    ensures item.Some? ==> Count(r) == Count(xs) + 1 && r[..|xs|] == xs && r[|xs|] == item.value
  {
    match item
    case None => xs
    case Some(x) => xs + [x]
  }

  /** `GetAll`: a new list holding the current contents in order. */
  method GetAll<T>(xs: seq<T>) returns (copy: seq<T>)
    ensures copy == xs
  {
    copy := [];
    var i := 0;
    while i < |xs|
      invariant 0 <= i <= |xs|
      invariant copy == xs[..i]
    {
      copy := copy + [xs[i]];
      i := i + 1;
    }
  }

  /** `GetById(predicate)`: `FirstOrDefault`, the first element in list order satisfying
      `p`, or null when none does. */
  function GetById<T>(xs: seq<T>, p: T -> bool): (r: Option<T>)
    ensures r.None? <==> forall j :: 0 <= j < |xs| ==> !p(xs[j])
    ensures r.Some? ==> exists i ::
      && 0 <= i < |xs| && xs[i] == r.value && p(xs[i])
      && forall j :: 0 <= j < i ==> !p(xs[j])
  {
    match FirstIndex(xs, p)
    case None => None
    case Some(i) => Some(xs[i])
  }

  /** `Remove(predicate)`: find the first match, then delete the first element that is
      `Equals` to it (`List.Remove`), which need not be the match itself. */
  function Remove<T>(xs: seq<T>, p: T -> bool, eq: (T, T) -> bool): (r: Removal<T>)
    ensures (forall j :: 0 <= j < |xs| ==> !p(xs[j])) ==> r == Removal(false, xs)
    ensures !r.removed ==> r.items == xs
    ensures r.removed ==> Count(r.items) == Count(xs) - 1
    ensures r.removed ==> exists m, j ::
      && 0 <= m < |xs| && 0 <= j < |xs|
      && p(xs[m]) && (forall k :: 0 <= k < m ==> !p(xs[k]))
      && eq(xs[j], xs[m]) && (forall k :: 0 <= k < j ==> !eq(xs[k], xs[m]))
      && r.items == xs[..j] + xs[j + 1..]
  {
    match FirstIndex(xs, p)
    case None => Removal(false, xs)
    case Some(m) =>
      var target := xs[m];
      match FirstIndex(xs, y => eq(y, target))
      case None => Removal(false, xs)
      case Some(j) => Removal(true, xs[..j] + xs[j + 1..])
  }

  /** With a reflexive `Equals`, `Remove` succeeds exactly when some element matches. */
  lemma RemoveSucceedsIffMatch<T>(xs: seq<T>, p: T -> bool, eq: (T, T) -> bool)
    requires forall j :: 0 <= j < |xs| ==> eq(xs[j], xs[j])
    ensures Remove(xs, p, eq).removed <==> exists i :: 0 <= i < |xs| && p(xs[i])
  {
    match FirstIndex(xs, p)
    case None =>
    case Some(m) =>
      var target := xs[m];
      assert eq(xs[m], target);
  }

  /** When nothing before the first match is `Equals` to it, `Remove` deletes exactly
      that match: the list is the old one with position `m` cut out. */
  lemma RemoveDeletesFirstMatch<T>(xs: seq<T>, p: T -> bool, eq: (T, T) -> bool, m: nat)
    requires m < |xs| && p(xs[m]) && forall k :: 0 <= k < m ==> !p(xs[k])
    requires eq(xs[m], xs[m])
    requires forall k :: 0 <= k < m ==> !eq(xs[k], xs[m])
    ensures Remove(xs, p, eq) == Removal(true, xs[..m] + xs[m + 1..])
  {
    assert FirstIndex(xs, p) == Some(m);
    var target := xs[m];
    assert FirstIndex(xs, y => eq(y, target)) == Some(m);
  }

  /** Adding then removing by the same predicate undoes the add when the new item is
      the only match and is `Equals` to nothing else in the list. */
  lemma AddThenRemove<T>(xs: seq<T>, x: T, p: T -> bool, eq: (T, T) -> bool)
    requires p(x) && eq(x, x)
    requires forall j :: 0 <= j < |xs| ==> !p(xs[j]) && !eq(xs[j], x)
    ensures Remove(Add(xs, Some(x)), p, eq) == Removal(true, xs)
  {
    var ys := xs + [x];
    RemoveDeletesFirstMatch(ys, p, eq, |xs|);
    assert ys[..|xs|] + ys[|xs| + 1..] == xs;
  }

  /** When `Equals` and the predicate both compare one key and no key repeats,
      `Remove` deletes precisely the entity with the wanted key, if there is one. */
  lemma RemoveByUniqueKey<T>(xs: seq<T>, key: T -> int, k: int, p: T -> bool, eq: (T, T) -> bool, others: T -> bool)
    requires DistinctKeys(xs, key)
    requires forall i :: 0 <= i < |xs| ==> p(xs[i]) == (key(xs[i]) == k) && others(xs[i]) == !p(xs[i])
    requires forall i, j :: 0 <= i < |xs| && 0 <= j < |xs| ==> eq(xs[i], xs[j]) == (key(xs[i]) == key(xs[j]))
    ensures Remove(xs, p, eq) == Removal(exists i :: 0 <= i < |xs| && key(xs[i]) == k, Filter(xs, others))
  {
    if m :| 0 <= m < |xs| && key(xs[m]) == k {
      assert forall j :: 0 <= j < m ==> key(xs[j]) != key(xs[m]);
      RemoveDeletesFirstMatch(xs, p, eq, m);
      assert forall j :: 0 <= j < |xs| && j != m ==> key(xs[j]) != key(xs[m]);
      FilterCut(xs, m, others);
    } else {
      FilterKeepsAll(xs, others);
    }
  }
}
