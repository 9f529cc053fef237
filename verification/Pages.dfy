/** Selecting live rows from a scan and cutting the list into pages
(core/const.go, and the skip/limit loops of storage/badger.go).
 */
module Pages {
  import opened ByteOrder

  // The keys, among the first `n` visited, that a callback keeps.
  function Kept(visited: seq<Key>, n: nat, keep: set<Key>): seq<Key>
    requires n <= |visited|
  {
    if n == 0 then []
    else Kept(visited, n - 1, keep) + if visited[n - 1] in keep then [visited[n - 1]] else []
  }

  // An early stop leaves an initial segment of the whole selection.
  lemma {:induction false} KeptPrefix(visited: seq<Key>, n: nat, keep: set<Key>)
    requires n <= |visited|
    ensures Kept(visited, n, keep) <= Kept(visited, |visited|, keep)
    decreases |visited| - n
  {
    if n < |visited| {
      KeptPrefix(visited, n + 1, keep);
    }
  }

  lemma {:induction false} KeptAscending(visited: seq<Key>, n: nat, keep: set<Key>)
    requires Ascending(visited) && n <= |visited|
    ensures Ascending(Kept(visited, n, keep))
    ensures forall k :: k in Kept(visited, n, keep) <==> k in keep && k in visited[..n]
  {
    if n > 0 {
      KeptAscending(visited, n - 1, keep);
      assert visited[..n] == visited[..n - 1] + [visited[n - 1]];
      var before := Kept(visited, n - 1, keep);
      forall i | 0 <= i < |before| ensures Less(before[i], visited[n - 1]) {
        assert before[i] in before;
        var j :| 0 <= j < n - 1 && visited[j] == before[i];
      }
    }
  }

  // Keeping a set of the scanned keys yields exactly that set, in key order.
  lemma ScanKeeps(keys: set<Key>, prefix: Key, keep: set<Key>)
    requires forall k | k in keep :: k in keys && prefix <= k
    ensures Kept(Scan(keys, prefix), |Scan(keys, prefix)|, keep) == SortedKeys(keep)
  {
    var visited := Scan(keys, prefix);
    KeptAscending(visited, |visited|, keep);
    assert visited[..|visited|] == visited;
    AscendingUnique(Kept(visited, |visited|, keep), SortedKeys(keep));
  }

  function Drop<X>(s: seq<X>, n: int): seq<X>
  {
    if n <= 0 then s else if n >= |s| then [] else s[n..]
  }

  function Take<X>(s: seq<X>, n: int): seq<X>
  {
    if n <= 0 then [] else if n >= |s| then s else s[..n]
  }

  // A page of a list; limit 0 means everything after the skipped part.
  function PageOf<X>(s: seq<X>, skip: int, limit: int): seq<X>
  {
    if limit == 0 then Drop(s, skip) else Take(Drop(s, skip), limit)
  }

  lemma KeptNone(visited: seq<Key>, keep: set<Key>, n: int)
    ensures Kept(visited, 0, keep) == [] && Drop<Key>([], n) == []
  {
  }

  lemma KeptStep(visited: seq<Key>, n: nat, keep: set<Key>)
    requires n < |visited|
    ensures visited[n] in keep ==> Kept(visited, n + 1, keep) == Kept(visited, n, keep) + [visited[n]]
    ensures visited[n] !in keep ==> Kept(visited, n + 1, keep) == Kept(visited, n, keep)
  {
  }

  lemma DropSnoc<X>(s: seq<X>, x: X, n: int)
    ensures |s| + 1 > n ==> Drop(s + [x], n) == Drop(s, n) + [x]
    ensures |s| + 1 <= n ==> Drop(s + [x], n) == Drop(s, n)
  {
  }

  // How many of `n` rows to list the loop of List and ListUsers counts. It tests the limit after each
  // row visited, so it passes the first one whatever the limit; `lead` says whether that one counts.
  function StopCount(n: nat, lead: bool, skip: int, limit: int): int
  {
    if limit == 0 then n else if skip + limit > 0 then skip + limit else if lead then 1 else 0
  }

  // `live` is what the loop had counted when it stopped.
  lemma StoppedAt<X>(live: seq<X>, all: seq<X>, lead: bool, skip: int, limit: int)
    requires live <= all
    requires limit == 0 ==> live == all
    requires limit != 0 && skip + limit > 0 ==> |live| <= skip + limit && (live == all || |live| == skip + limit)
    requires limit != 0 && skip + limit <= 0 ==> |live| == if lead then 1 else 0
    ensures live == Take(all, StopCount(|all|, lead, skip, limit))
  {
  }

  lemma StopIsPage<X>(all: seq<X>, lead: bool, skip: int, limit: int)
    requires skip >= 0 && limit >= 0
    ensures Drop(Take(all, StopCount(|all|, lead, skip, limit)), skip) == PageOf(all, skip, limit)
  {
  }

  // core.Page, whose getters clamp the fields they read.
  class Page {
    var skip: int
    var limit: int

    method GetSkip() returns (r: int)
      modifies this
      ensures r == skip == (if old(skip) < 0 then 0 else old(skip)) && limit == old(limit)
    {
      if skip < 0 {
        skip := 0;
      }
      r := skip;
    }

    method GetLimit() returns (r: int)
      modifies this
      ensures r == limit == (if old(limit) < 0 || old(limit) > 1000 then 1000 else old(limit)) && skip == old(skip)
    {
      if limit < 0 || limit > 1000 {
        limit := 1000;
      }
      r := limit;
    }
  }

  // The pages 0, 1, .., n - 1 of size `size`.
  function Pages<X>(s: seq<X>, size: nat, n: nat): seq<X>
  {
    if n == 0 then [] else Pages(s, size, n - 1) + PageOf(s, (n - 1) * size, size)
  }

  lemma TakeMore<X>(s: seq<X>, a: nat, size: nat)
    requires size > 0
    ensures Take(s, a) + PageOf(s, a, size) == Take(s, a + size)
  {
  }

  // Consecutive pages join up without gap or repeat ...
  lemma {:induction false} PagesJoin<X>(s: seq<X>, size: nat, n: nat)
    requires size > 0
    ensures Pages(s, size, n) == Take(s, n * size)
  {
    if n > 0 {
      PagesJoin(s, size, n - 1);
      var before: nat := (n - 1) * size;
      assert n * size == before + size;
      TakeMore(s, before, size);
    }
  }

  // ... and enough of them make up the whole list.
  lemma PagesCover<X>(s: seq<X>, size: nat)
    requires size > 0
    ensures Pages(s, size, |s|) == s
  {
    PagesJoin(s, size, |s|);
    assert |s| * size >= |s| by {
      assert |s| * size - |s| == |s| * (size - 1);
    }
  }
}
