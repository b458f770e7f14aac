/** Paged reads from a management server, against any behaviour of that server. */
module Paging {
  import opened Common

  const MAX_PAGES: nat := 200

  /** One value of a decoded reply. A Boolean is not a number here; `Blank` is false, an
      empty text or an empty mapping. */
  datatype Json<T> = Null | Blank | Number(n: int) | List(items: seq<T>) | Other

  type Reply<T> = map<string, Json<T>>

  /** A server may answer the same offset differently each time it is asked. */
  type Server<!T> = (nat, int) -> Reply<T>

  function Collections(operation: string): seq<string> {
    match operation
    case "show-access-layers" => ["access-layers"]
    case "show-packages" => ["packages"]
    case _ => ["rulebase", "objects-dictionary"]
  }

  datatype PagingError = Stalled | TooManyPages | NotAList

  function AsInt<T>(page: Reply<T>, key: string): Option<int> {
    if key in page && page[key].Number? then Some(page[key].n) else None
  }

  /** `list(page.get(key) or [])`, where a falsy value reads as nothing. */
  function Listed<T>(page: Reply<T>, key: string): Option<seq<T>> {
    if key !in page || page[key].Null? || page[key].Blank? || page[key] == Number(0) then Some([])
    else if page[key].List? then Some(page[key].items)
    else None
  }

  function ItemsOf<T>(page: Reply<T>, key: string): seq<T> {
    if key in page && page[key].List? then page[key].items else []
  }

  /** The first page: everything but the collections as it is, the collections as lists. */
  function First<T>(page: Reply<T>, keys: seq<string>, n: nat): Option<Reply<T>>
    requires n <= |keys|
  {
    if n == 0 then Some(map key | key in page && key !in keys :: page[key])
    else if First(page, keys, n - 1).None? || Listed(page, keys[n - 1]).None? then None
    else Some(First(page, keys, n - 1).value[keys[n - 1] := List(Listed(page, keys[n - 1]).value)])
  }

  /** A later page: each list found is appended to the collection it belongs to. */
  function Extended<T>(merged: Reply<T>, page: Reply<T>, keys: seq<string>, n: nat): Reply<T>
    requires n <= |keys|
  {
    if n == 0 then merged
    else
      var before := Extended(merged, page, keys, n - 1);
      var key := keys[n - 1];
      if key in page && page[key].List? then before[key := List(ItemsOf(before, key) + page[key].items)] else before
  }

  function Absorb<T>(merged: Option<Reply<T>>, page: Reply<T>, keys: seq<string>): Option<Reply<T>> {
    if merged.None? then First(page, keys, |keys|) else Some(Extended(merged.value, page, keys, |keys|))
  }

  /** The walk from attempt `n`, and the offsets it asks for. */
  function Walk<T>(server: Server<T>, keys: seq<string>, n: nat, offset: int, merged: Option<Reply<T>>)
    : (Result<Reply<T>, PagingError>, seq<int>)
    requires n <= MAX_PAGES
    decreases MAX_PAGES - n
  {
    if n == MAX_PAGES then (Err(TooManyPages), [])
    else
      var page := server(n, offset);
      var absorbed := Absorb(merged, page, keys);
      if absorbed.None? then (Err(NotAList), [offset])
      else
        var total, to := AsInt(page, "total"), AsInt(page, "to");
        if total.None? || to.None? || to.value >= total.value then (Ok(absorbed.value), [offset])
        else if to.value <= offset then (Err(Stalled), [offset])
        else
          var (r, offsets) := Walk(server, keys, n + 1, to.value, absorbed);
          (r, [offset] + offsets)
  }

  method FetchAllPages<T>(server: Server<T>, operation: string) returns (r: Result<Reply<T>, PagingError>,
      offsets: seq<int>)
    ensures (r, offsets) == Walk(server, Collections(operation), 0, 0, None)
  {
    hide First, Extended, Absorb, Walk;
    var keys := Collections(operation);
    var merged: Option<Reply<T>> := None;
    var offset := 0;
    offsets := [];
    ghost var whole := Walk(server, keys, 0, 0, None);
    for n := 0 to MAX_PAGES
      invariant whole.0 == Walk(server, keys, n, offset, merged).0
      invariant whole.1 == offsets + Walk(server, keys, n, offset, merged).1
    {
      var page := server(n, offset);
      ghost var rest := Walk(server, keys, n, offset, merged);
      AbsorbMeans(merged, page, keys);
      WalkStep(server, keys, n, offset, merged);
      if merged.None? {
        var first := FirstPage(page, keys);
        if first.None? { return Err(NotAList), offsets + [offset]; }
        merged := first;
      } else {
        var extended := ExtendPage(merged.value, page, keys);
        merged := Some(extended);
      }
      assert offsets + rest.1 == offsets + [offset] + rest.1[1..] by { assert rest.1 == [offset] + rest.1[1..]; }
      offsets := offsets + [offset];
      var total, to := AsInt(page, "total"), AsInt(page, "to");
      if total.None? || to.None? { return Ok(merged.value), offsets; }
      if to.value >= total.value { return Ok(merged.value), offsets; }
      if to.value <= offset { return Err(Stalled), offsets; }
      offset := to.value;
    }
    WalkEnds(server, keys, offset, merged);
    assert offsets + [] == offsets;
    return Err(TooManyPages), offsets;
  }

  lemma WalkEnds<T>(server: Server<T>, keys: seq<string>, offset: int, merged: Option<Reply<T>>)
    ensures Walk(server, keys, MAX_PAGES, offset, merged) == (Err(TooManyPages), [])
  {
  }

  lemma WalkStep<T>(server: Server<T>, keys: seq<string>, n: nat, offset: int, merged: Option<Reply<T>>)
    requires n < MAX_PAGES
    ensures var page := server(n, offset);
      var absorbed := Absorb(merged, page, keys);
      var total, to := AsInt(page, "total"), AsInt(page, "to");
      var w := Walk(server, keys, n, offset, merged);
      if absorbed.None? then w == (Err(NotAList), [offset])
      else if total.None? || to.None? || to.value >= total.value then w == (Ok(absorbed.value), [offset])
      else if to.value <= offset then w == (Err(Stalled), [offset])
      else
        var rest := Walk(server, keys, n + 1, to.value, absorbed);
        w == (rest.0, [offset] + rest.1)
  {
  }

  lemma AbsorbMeans<T>(merged: Option<Reply<T>>, page: Reply<T>, keys: seq<string>)
    ensures Absorb(merged, page, keys) ==
      if merged.None? then First(page, keys, |keys|) else Some(Extended(merged.value, page, keys, |keys|))
  {
  }

  method FirstPage<T>(page: Reply<T>, keys: seq<string>) returns (r: Option<Reply<T>>)
    ensures r == First(page, keys, |keys|)
  {
    var merged := map key | key in page && key !in keys :: page[key];
    for n := 0 to |keys|
      invariant First(page, keys, n) == Some(merged)
    {
      var list := Listed(page, keys[n]);
      if list.None? {
        StaysNone(page, keys, n + 1, |keys|);
        return None;
      }
      merged := merged[keys[n] := List(list.value)];
    }
    return Some(merged);
  }

  lemma {:induction false} StaysNone<T>(page: Reply<T>, keys: seq<string>, n: nat, m: nat)
    requires n <= m <= |keys| && First(page, keys, n).None?
    ensures First(page, keys, m).None?
  {
    if n < m { StaysNone(page, keys, n, m - 1); }
  }

  method ExtendPage<T>(merged: Reply<T>, page: Reply<T>, keys: seq<string>) returns (r: Reply<T>)
    ensures r == Extended(merged, page, keys, |keys|)
  {
    r := merged;
    for n := 0 to |keys|
      invariant r == Extended(merged, page, keys, n)
    {
      var key := keys[n];
      if key in page && page[key].List? { r := r[key := List(ItemsOf(r, key) + page[key].items)]; }
    }
  }

  // -------------------------------------------------------------- any server

  /** Against any server: at most `MAX_PAGES` requests, at strictly increasing offsets. */
  lemma {:induction false} WalkIsBounded<T>(server: Server<T>, keys: seq<string>, n: nat, offset: int,
      merged: Option<Reply<T>>)
    requires n <= MAX_PAGES
    ensures var offsets := Walk(server, keys, n, offset, merged).1;
      && |offsets| <= MAX_PAGES - n
      && (offsets != [] ==> offsets[0] == offset)
      && forall i, j :: 0 <= i < j < |offsets| ==> offsets[i] < offsets[j]
    decreases MAX_PAGES - n
  {
    hide Absorb, AsInt;
    if n < MAX_PAGES {
      var page := server(n, offset);
      var to := AsInt(page, "to");
      if to.Some? { WalkIsBounded(server, keys, n + 1, to.value, Absorb(merged, page, keys)); }
    }
  }

  /** What the requests returned for one collection, in the order they were made. */
  function Gathered<T>(server: Server<T>, key: string, n: nat, offsets: seq<int>): seq<T>
    decreases |offsets|
  {
    if offsets == [] then [] else ItemsOf(server(n, offsets[0]), key) + Gathered(server, key, n + 1, offsets[1..])
  }

  /** No key twice. */
  predicate Distinct(keys: seq<string>) { forall i, j :: 0 <= i < j < |keys| ==> keys[i] != keys[j] }

  lemma {:induction false} FirstItems<T>(page: Reply<T>, keys: seq<string>, n: nat, key: string)
    requires n <= |keys| && First(page, keys, n).Some?
    ensures key in keys[..n] ==>
      key in First(page, keys, n).value && ItemsOf(First(page, keys, n).value, key) == ItemsOf(page, key)
  {
    if n > 0 {
      FirstItems(page, keys, n - 1, key);
      assert keys[..n] == keys[..n - 1] + [keys[n - 1]];
    }
  }

  lemma {:induction false} ExtendedItems<T>(merged: Reply<T>, page: Reply<T>, keys: seq<string>, n: nat, key: string)
    requires n <= |keys| && Distinct(keys)
    ensures ItemsOf(Extended(merged, page, keys, n), key) ==
      ItemsOf(merged, key) + if key in keys[..n] then ItemsOf(page, key) else []
  {
    hide ItemsOf;
    if n == 0 {
      assert ItemsOf(merged, key) + [] == ItemsOf(merged, key);
    } else {
      ExtendedItems(merged, page, keys, n - 1, key);
      assert keys[..n] == keys[..n - 1] + [keys[n - 1]];
      ExtendStep(Extended(merged, page, keys, n - 1), page, keys[n - 1], key);
      if key == keys[n - 1] {
        assert key !in keys[..n - 1];
        assert ItemsOf(merged, key) + [] == ItemsOf(merged, key);
      }
    }
  }

  lemma ExtendStep<T>(before: Reply<T>, page: Reply<T>, at: string, key: string)
    ensures var after := if at in page && page[at].List? then before[at := List(ItemsOf(before, at) +
        page[at].items)] else before;
      ItemsOf(after, key) == if key == at then ItemsOf(before, key) + ItemsOf(page, key) else ItemsOf(before, key)
  {
    assert ItemsOf(before, key) + [] == ItemsOf(before, key);
  }

  /** Whenever the walk returns, each collection is exactly what its requests returned. */
  lemma {:induction false} WalkGathers<T>(server: Server<T>, keys: seq<string>, n: nat, offset: int,
      merged: Option<Reply<T>>, key: string)
    requires n <= MAX_PAGES && Distinct(keys) && key in keys
    ensures var (r, offsets) := Walk(server, keys, n, offset, merged);
      var before := if merged.None? then [] else ItemsOf(merged.value, key);
      r.Ok? ==> ItemsOf(r.value, key) == before + Gathered(server, key, n, offsets)
    decreases MAX_PAGES - n
  {
    hide First, Extended, AsInt, Distinct, ItemsOf;
    if n < MAX_PAGES {
      var page := server(n, offset);
      var absorbed := Absorb(merged, page, keys);
      var before := if merged.None? then [] else ItemsOf(merged.value, key);
      assert keys[..|keys|] == keys;
      if absorbed.Some? {
        if merged.None? { FirstItems(page, keys, |keys|, key); } else { ExtendedItems(merged.value, page, keys,
            |keys|, key); }
        assert ItemsOf(absorbed.value, key) == before + ItemsOf(page, key);
        assert ItemsOf(page, key) + [] == ItemsOf(page, key);
        var to := AsInt(page, "to");
        if to.Some? {
          WalkGathers(server, keys, n + 1, to.value, absorbed, key);
          var rest := Walk(server, keys, n + 1, to.value, absorbed).1;
          assert ([offset] + rest)[1..] == rest;
          assert (before + ItemsOf(page, key)) + Gathered(server, key, n + 1, rest)
              == before + (ItemsOf(page, key) + Gathered(server, key, n + 1, rest));
        }
      }
    }
  }

  // ------------------------------------------------------------ honest servers

  /** Asked from any position of its list, the server reports the true total and how far
      it got, and returns exactly the items in between; it always gets somewhere. */
  ghost predicate Honest<T>(server: Server<T>, key: string, items: seq<T>) {
    forall n, offset :: 0 <= offset <= |items| ==> HonestAt(server(n, offset), key, items, offset)
  }

  ghost predicate HonestAt<T>(page: Reply<T>, key: string, items: seq<T>, offset: int) {
    && AsInt(page, "total") == Some(|items|)
    && AsInt(page, "to").Some?
    && var to := AsInt(page, "to").value;
       && 0 <= offset <= to <= |items| && (to == offset ==> offset == |items|)
       && ItemsOf(page, key) == items[offset..to]
  }

  /** An honest server's list comes back exactly, without gap or duplicate, whenever the
      walk returns, and the walk never calls an honest server stalled. */
  lemma {:induction false} HonestWalk<T>(server: Server<T>, keys: seq<string>, n: nat, offset: int,
      merged: Option<Reply<T>>, key: string, items: seq<T>)
    requires n <= MAX_PAGES && Distinct(keys) && key in keys && Honest(server, key, items) && 0 <= offset <= |items|
    ensures var (r, offsets) := Walk(server, keys, n, offset, merged);
      (r.Ok? ==> Gathered(server, key, n, offsets) == items[offset..]) && r != Err(Stalled)
    decreases MAX_PAGES - n
  {
    hide Absorb, ItemsOf, AsInt, Distinct;
    if n < MAX_PAGES {
      var page := server(n, offset);
      assert HonestAt(page, key, items, offset);
      var to := AsInt(page, "to").value;
      if to < |items| {
        HonestWalk(server, keys, n + 1, to, Absorb(merged, page, keys), key, items);
        var rest := Walk(server, keys, n + 1, to, Absorb(merged, page, keys)).1;
        assert ([offset] + rest)[1..] == rest;
        assert items[offset..to] + items[to..] == items[offset..];
      } else {
        assert [offset][1..] == [];
        assert items[offset..to] + [] == items[offset..];
      }
    }
  }

  /** The result of the whole operation against an honest server. */
  lemma HonestResult<T>(server: Server<T>, operation: string, key: string, items: seq<T>)
    requires key in Collections(operation) && Honest(server, key, items)
    ensures var r := Walk(server, Collections(operation), 0, 0, None).0;
      (r.Ok? ==> ItemsOf(r.value, key) == items) && r != Err(Stalled)
  {
    hide Walk, Gathered;
    var keys := Collections(operation);
    assert Distinct(keys);
    HonestWalk(server, keys, 0, 0, None, key, items);
    WalkGathers(server, keys, 0, 0, None, key);
    assert items[0..] == items;
  }

  /** A server that fills its pages: every reply gets at least `pageSize` further. */
  ghost predicate FillsPages<T>(server: Server<T>, items: seq<T>, pageSize: nat) {
    forall n, offset :: 0 <= offset <= |items| && AsInt(server(n, offset), "to").Some? ==>
      AsInt(server(n, offset), "to").value >= Least(offset + pageSize, |items|)
  }

  function Least(a: int, b: int): int { if a < b then a else b }

  /** With full pages, a list of at most `MAX_PAGES` pages never runs out of attempts. */
  lemma {:induction false} FullPagesFinish<T>(server: Server<T>, keys: seq<string>, n: nat, offset: int,
      merged: Option<Reply<T>>, key: string, items: seq<T>, pageSize: nat)
    requires n < MAX_PAGES && Honest(server, key, items) && FillsPages(server, items, pageSize)
    requires 0 <= offset <= |items| && |items| - offset <= (MAX_PAGES - n) * pageSize
    ensures Walk(server, keys, n, offset, merged).0 != Err(TooManyPages)
    decreases MAX_PAGES - n
  {
    hide Absorb, ItemsOf, AsInt;
    var page := server(n, offset);
    assert HonestAt(page, key, items, offset);
    var to := AsInt(page, "to").value;
    if to < |items| {
      assert (MAX_PAGES - n) * pageSize == (MAX_PAGES - (n + 1)) * pageSize + pageSize;
      assert n + 1 < MAX_PAGES;
      FullPagesFinish(server, keys, n + 1, to, Absorb(merged, page, keys), key, items, pageSize);
    }
  }

  // ------------------------------------------------- what comes back, exactly

  /** Which lists are gathered, by operation. */
  lemma CollectionsByOperation(operation: string)
    ensures operation == "show-access-layers" ==> Collections(operation) == ["access-layers"]
    ensures operation == "show-packages" ==> Collections(operation) == ["packages"]
    ensures operation != "show-access-layers" && operation != "show-packages" ==>
      Collections(operation) == ["rulebase", "objects-dictionary"]
  {
  }

  lemma {:induction false} FirstExact<T>(page: Reply<T>, keys: seq<string>, n: nat)
    requires n <= |keys|
    ensures First(page, keys, n).Some? <==> forall i :: 0 <= i < n ==> Listed(page, keys[i]).Some?
    ensures First(page, keys, n).Some? ==> forall key :: key !in keys ==>
      (key in First(page, keys, n).value <==> key in page) &&
      (key in page ==> First(page, keys, n).value[key] == page[key])
  {
    hide Listed;
    if n > 0 { FirstExact(page, keys, n - 1); }
  }

  lemma {:induction false} ExtendedKeepsOthers<T>(merged: Reply<T>, page: Reply<T>, keys: seq<string>, n: nat,
      key: string)
    requires n <= |keys| && key !in keys
    ensures var r := Extended(merged, page, keys, n);
      (key in r <==> key in merged) && (key in merged ==> r[key] == merged[key])
  {
    if n > 0 { ExtendedKeepsOthers(merged, page, keys, n - 1, key); }
  }

  lemma {:induction false} WalkKeepsOthers<T>(server: Server<T>, keys: seq<string>, n: nat, offset: int,
      merged: Reply<T>,
      key: string)
    requires n <= MAX_PAGES && key !in keys
    ensures var r := Walk(server, keys, n, offset, Some(merged)).0;
      && r != Err(NotAList)
      && (r.Ok? ==> (key in r.value <==> key in merged) && (key in merged ==> r.value[key] == merged[key]))
    decreases MAX_PAGES - n
  {
    hide Extended, AsInt;
    if n < MAX_PAGES {
      var page := server(n, offset);
      var to := AsInt(page, "to");
      ExtendedKeepsOthers(merged, page, keys, |keys|, key);
      if to.Some? { WalkKeepsOthers(server, keys, n + 1, to.value, Extended(merged, page, keys, |keys|), key); }
    }
  }

  /** Everything but the collections is as the first reply has it. */
  lemma OthersFromFirstPage<T>(server: Server<T>, operation: string, key: string)
    requires key !in Collections(operation)
    ensures var r, page := Walk(server, Collections(operation), 0, 0, None).0, server(0, 0);
      r.Ok? ==> (key in r.value <==> key in page) && (key in page ==> r.value[key] == page[key])
  {
    hide First, Extended, AsInt;
    var keys, page := Collections(operation), server(0, 0);
    FirstExact(page, keys, |keys|);
    var to := AsInt(page, "to");
    if First(page, keys, |keys|).Some? && to.Some? {
      WalkKeepsOthers(server, keys, 1, to.value, First(page, keys, |keys|).value, key);
    }
  }

  /** A collection is refused exactly when the first reply has something else in its place. */
  lemma NotAListExact<T>(server: Server<T>, operation: string)
    ensures Walk(server, Collections(operation), 0, 0, None).0 == Err(NotAList) <==>
      exists i :: 0 <= i < |Collections(operation)| && Listed(server(0, 0), Collections(operation)[i]).None?
  {
    hide First, Extended, AsInt, Listed, Collections;
    var keys, page := Collections(operation), server(0, 0);
    FirstExact(page, keys, |keys|);
    var to := AsInt(page, "to");
    var other := LongerThanAll(keys);
    if First(page, keys, |keys|).Some? && to.Some? {
      WalkKeepsOthers(server, keys, 1, to.value, First(page, keys, |keys|).value, other);
    }
  }

  lemma LongerThanAll(keys: seq<string>) returns (key: string)
    ensures key !in keys
  {
    key := FreshName(set k | k in keys);
  }

  /** An honest server that fills its pages, and has lists or nothing under every collection,
      is read to the end: its list comes back whole, if it fits the page limit. */
  lemma HonestIsReadToTheEnd<T>(server: Server<T>, operation: string, key: string, items: seq<T>, pageSize: nat)
    requires key in Collections(operation) && Honest(server, key, items) && FillsPages(server, items, pageSize)
    requires |items| <= MAX_PAGES * pageSize
    requires forall i :: 0 <= i < |Collections(operation)| ==>
      var k := Collections(operation)[i]; k in server(0, 0) ==> server(0, 0)[k].List? || server(0, 0)[k].Null?
    ensures var r := Walk(server, Collections(operation), 0, 0, None).0;
      r.Ok? && key in r.value && r.value[key] == List(items)
  {
    hide Walk, Honest, FillsPages, Collections;
    HonestResult(server, operation, key, items);
    FullPagesFinish(server, Collections(operation), 0, 0, None, key, items, pageSize);
    NotAListExact(server, operation);
    var r := Walk(server, Collections(operation), 0, 0, None).0;
    assert r.Err? ==> r.error == Stalled || r.error == TooManyPages || r.error == NotAList;
    CollectionsAreLists(server, operation, key);
  }

  lemma {:induction false} FirstHasLists<T>(page: Reply<T>, keys: seq<string>, n: nat, key: string)
    requires n <= |keys| && First(page, keys, n).Some? && key in keys[..n]
    ensures key in First(page, keys, n).value && First(page, keys, n).value[key].List?
  {
    if n > 0 {
      assert keys[..n] == keys[..n - 1] + [keys[n - 1]];
      if key in keys[..n - 1] { FirstHasLists(page, keys, n - 1, key); }
    }
  }

  lemma {:induction false} ExtendedKeepsLists<T>(merged: Reply<T>, page: Reply<T>, keys: seq<string>, n: nat,
      key: string)
    requires n <= |keys| && key in merged && merged[key].List?
    ensures key in Extended(merged, page, keys, n) && Extended(merged, page, keys, n)[key].List?
  {
    if n > 0 { ExtendedKeepsLists(merged, page, keys, n - 1, key); }
  }

  lemma {:induction false} WalkKeepsLists<T>(server: Server<T>, keys: seq<string>, n: nat, offset: int,
      merged: Reply<T>,
      key: string)
    requires n <= MAX_PAGES && key in merged && merged[key].List?
    ensures var r := Walk(server, keys, n, offset, Some(merged)).0; r.Ok? ==> key in r.value && r.value[key].List?
    decreases MAX_PAGES - n
  {
    hide Extended, AsInt;
    if n < MAX_PAGES {
      var page := server(n, offset);
      var to := AsInt(page, "to");
      ExtendedKeepsLists(merged, page, keys, |keys|, key);
      if to.Some? { WalkKeepsLists(server, keys, n + 1, to.value, Extended(merged, page, keys, |keys|), key); }
    }
  }

  lemma CollectionsAreLists<T>(server: Server<T>, operation: string, key: string)
    requires key in Collections(operation)
    ensures var r := Walk(server, Collections(operation), 0, 0, None).0; r.Ok? ==> key in r.value && r.value[key].List?
  {
    hide First, Extended, AsInt, Collections;
    var keys, page := Collections(operation), server(0, 0);
    assert keys[..|keys|] == keys;
    var to := AsInt(page, "to");
    if First(page, keys, |keys|).Some? {
      FirstHasLists(page, keys, |keys|, key);
      if to.Some? { WalkKeepsLists(server, keys, 1, to.value, First(page, keys, |keys|).value, key); }
    }
  }
}
