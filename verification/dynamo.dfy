/**
 * The key-value store as the two repositories use it: records as attribute
 * maps, the paginated scan followed through continuation keys, and the `SET`
 * update with its placeholder maps.
 */
module Dynamo {
  import opened Outcomes
  import opened Js

  /** A stored record: attribute name to value. */
  type Item = map<string, JsVal>

  /** A `LastEvaluatedKey`: opaque to the repositories, modelled as the position to resume from. */
  type Token = nat

  /** The answer to one `ScanCommand`: a page (an absent `Items` is the empty page) or a thrown error. */
  datatype ScanResult = Page(items: seq<Item>, lastKey: Option<Token>) | ScanError(message: string)

  /** The store's scan: `(Limit, ExclusiveStartKey)` to the page it answers with. */
  type Scanner = (nat, Option<Token>) -> ScanResult

  /** `findAll({ limitPerPage = 100 } = {})`. */
  function PageLimit(limitPerPage: Option<nat>): nat
  {
    if limitPerPage.Some? then limitPerPage.value else 100
  }

  /**
   * The answers to the scans a full listing issues, starting from `start`:
   * each further scan resumes from the previous page's `LastEvaluatedKey`,
   * and the listing stops after a page without one or after a failed scan.
   * `None` when that takes more than `fuel` scans.
   */
  function Chain(scan: Scanner, limit: nat, start: Option<Token>, fuel: nat): Option<seq<ScanResult>>
    decreases fuel
  {
    if fuel == 0 then None
    else
      var res := scan(limit, start);
      if res.ScanError? || res.lastKey.None? then Some([res])
      else
        match Chain(scan, limit, res.lastKey, fuel - 1)
        case None => None
        case Some(rest) => Some([res] + rest)
  }

  function Prepend(xs: seq<Item>, r: Result<seq<Item>>): Result<seq<Item>>
  {
    match r
    case Ok(ys) => Ok(xs + ys)
    case Fail(m) => Fail(m)
  }

  /** The listing the scans add up to: the pages' items in page order, or the first failure alone. */
  function Gather(pages: seq<ScanResult>): Result<seq<Item>>
  {
    if pages == [] then Ok([])
    else
      match pages[0]
      case ScanError(m) => Fail(m)
      case Page(items, _) => Prepend(items, Gather(pages[1..]))
  }

  /** The items of a run of pages, concatenated in page order. */
  function ItemsOf(pages: seq<ScanResult>): seq<Item>
  {
    if pages == [] then [] else (if pages[0].Page? then pages[0].items else []) + ItemsOf(pages[1..])
  }

  /**
   * A listing issues its first scan from `start` and feeds each page's
   * `LastEvaluatedKey` into the next scan, until a page comes back without
   * one or a scan fails; it never issues more than `fuel` scans.
   */
  lemma {:induction false} ChainFollowsKeys(scan: Scanner, limit: nat, start: Option<Token>, fuel: nat)
    requires Chain(scan, limit, start, fuel).Some?
    decreases fuel
    ensures var c := Chain(scan, limit, start, fuel).value;
      && 1 <= |c| <= fuel
      && c[0] == scan(limit, start)
      && (forall i :: 0 <= i < |c| - 1 ==> c[i].Page? && c[i].lastKey.Some? && c[i + 1] == scan(limit, c[i].lastKey))
      && (c[|c| - 1].ScanError? || c[|c| - 1].lastKey.None?)
  {
    var res := scan(limit, start);
    if res.Page? && res.lastKey.Some? {
      ChainFollowsKeys(scan, limit, res.lastKey, fuel - 1);
      var rest := Chain(scan, limit, res.lastKey, fuel - 1).value;
      var c := [res] + rest;
      assert c == Chain(scan, limit, start, fuel).value;
      forall i | 0 <= i < |c| - 1
        ensures c[i].Page? && c[i].lastKey.Some? && c[i + 1] == scan(limit, c[i].lastKey)
      {
        if i > 0 {
          assert c[i] == rest[i - 1] && c[i + 1] == rest[i];
        }
      }
    }
  }

  /**
   * All or nothing: when every scan succeeded the listing is every page's
   * items in page order; when any scan failed it is that failure (the
   * first one), with no partial result.
   */
  lemma {:induction false} GatherAllOrNothing(pages: seq<ScanResult>)
    ensures (forall i :: 0 <= i < |pages| ==> pages[i].Page?) ==> Gather(pages) == Ok(ItemsOf(pages))
    ensures forall i :: (0 <= i < |pages| && pages[i].ScanError? && (forall j :: 0 <= j < i ==> pages[j].Page?)
                         ==> Gather(pages) == Fail(pages[i].message))
  {
    if pages != [] {
      GatherAllOrNothing(pages[1..]);
      forall i | 0 <= i < |pages| && pages[i].ScanError? && (forall j :: 0 <= j < i ==> pages[j].Page?)
        ensures Gather(pages) == Fail(pages[i].message)
      {
        if i > 0 {
          assert pages[0].Page?;
          assert pages[1..][i - 1] == pages[i];
          assert forall j :: 0 <= j < i - 1 ==> pages[1..][j] == pages[j + 1];
        }
      }
    }
  }

  /** One scan of the listing loop: the chain is that page followed by the rest of the chain. */
  lemma ScanStep(scan: Scanner, limit: nat, start: Option<Token>, fuel: nat)
    requires Chain(scan, limit, start, fuel).Some?
    ensures fuel >= 1
    ensures var res := scan(limit, start);
      && (res.ScanError? ==> Gather(Chain(scan, limit, start, fuel).value) == Fail(res.message))
      && (res.Page? && res.lastKey.None? ==> Gather(Chain(scan, limit, start, fuel).value) == Ok(res.items))
      && (res.Page? && res.lastKey.Some? ==>
            && Chain(scan, limit, res.lastKey, fuel - 1).Some?
            && Gather(Chain(scan, limit, start, fuel).value) ==
               Prepend(res.items, Gather(Chain(scan, limit, res.lastKey, fuel - 1).value)))
  {
    var res := scan(limit, start);
    var c := Chain(scan, limit, start, fuel).value;
    if res.Page? && res.lastKey.Some? {
      var rest := Chain(scan, limit, res.lastKey, fuel - 1).value;
      assert c == [res] + rest;
      assert c[0] == res && c[1..] == rest;
    } else {
      assert c == [res];
      assert c[1..] == [];
      if res.Page? {
        assert res.items + [] == res.items;
      }
    }
  }

  lemma PrependTwice(xs: seq<Item>, ys: seq<Item>, r: Result<seq<Item>>)
    ensures Prepend(xs, Prepend(ys, r)) == Prepend(xs + ys, r)
  {
    if r.Ok? {
      assert xs + (ys + r.value) == (xs + ys) + r.value;
    }
  }

  /**
   * A well-behaved store holding `order`: each scan returns up to `limit`
   * records from the resume position and a continuation key exactly when
   * records remain. A real table also hands back a continuation key when a
   * page reaches `limit` exactly, which costs one further, empty scan when
   * the table size is a multiple of `limit`; that store is a `Scanner` too,
   * and only the scan count below is specific to this one.
   */
  function PagedScan(order: seq<Item>): Scanner
  {
    (limit: nat, start: Option<Token>) =>
      var k := if start.Some? then start.value else 0;
      var lo := if k <= |order| then k else |order|;
      var hi := if k + limit <= |order| then k + limit else |order|;
      Page(order[lo..hi], if k + limit < |order| then Some(k + limit) else None)
  }

  /** How many scans it takes to read `n` records, `limit` at a time (an empty table still takes one). */
  function PagesNeeded(n: nat, limit: nat): (pages: nat)
    requires limit >= 1
    ensures pages >= 1
    decreases n
  {
    if n <= limit then 1 else 1 + PagesNeeded(n - limit, limit)
  }

  /** The page a well-behaved store answers with when a scan resumes at position `k`. */
  lemma PagedScanAnswer(order: seq<Item>, limit: nat, k: nat, start: Option<Token>)
    requires k <= |order|
    requires start == (if k == 0 then None else Some(k)) || start == Some(k)
    ensures PagedScan(order)(limit, start) ==
      Page(order[k..if k + limit <= |order| then k + limit else |order|], if k + limit < |order| then Some(k + limit) else None)
  {
  }

  /**
   * Against a well-behaved store, a listing resumed at position `k` returns
   * exactly the records from `k` on, in store order, after `PagesNeeded` scans.
   */
  lemma {:induction false} ListingOfPagedStore(order: seq<Item>, limit: nat, k: nat, start: Option<Token>, fuel: nat)
    requires limit >= 1 && k <= |order|
    requires start == (if k == 0 then None else Some(k)) || start == Some(k)
    requires fuel >= PagesNeeded(|order| - k, limit)
    ensures Chain(PagedScan(order), limit, start, fuel).Some?
    ensures |Chain(PagedScan(order), limit, start, fuel).value| == PagesNeeded(|order| - k, limit)
    ensures Gather(Chain(PagedScan(order), limit, start, fuel).value) == Ok(order[k..])
    decreases |order| - k
  {
    var scan := PagedScan(order);
    var res := scan(limit, start);
    PagedScanAnswer(order, limit, k, start);
    if k + limit < |order| {
      ListingOfPagedStore(order, limit, k + limit, Some(k + limit), fuel - 1);
      var rest := Chain(scan, limit, Some(k + limit), fuel - 1).value;
      assert Chain(scan, limit, start, fuel) == Some([res] + rest);
      ScanStep(scan, limit, start, fuel);
      SliceSplit(order, k, k + limit);
    } else {
      assert Chain(scan, limit, start, fuel) == Some([res]);
      ScanStep(scan, limit, start, fuel);
      assert res.items == order[k..];
    }
  }

  lemma SliceSplit(s: seq<Item>, a: nat, b: nat)
    requires a <= b <= |s|
    ensures s[a..] == s[a..b] + s[b..]
  {
  }

  /**
   * A listing of a well-behaved store returns every record in store order;
   * 250 records read 100 at a time take exactly three scans.
   */
  lemma FullListingOfPagedStore(order: seq<Item>, limit: nat)
    requires limit >= 1
    ensures var c := Chain(PagedScan(order), limit, None, PagesNeeded(|order|, limit));
      c.Some? && Gather(c.value) == Ok(order) && |c.value| == PagesNeeded(|order|, limit)
    ensures |order| == 250 && limit == 100 ==> PagesNeeded(|order|, limit) == 3
  {
    ListingOfPagedStore(order, limit, 0, None, PagesNeeded(|order|, limit));
    assert order[0..] == order;
  }

  /** Every record is stored under the value of its own `id` attribute. */
  ghost predicate KeyedById(items: map<JsVal, Item>)
  {
    forall k :: k in items ==> "id" in items[k] && items[k]["id"] == k
  }

  /** Putting a record under its own id keeps the table keyed by id. */
  lemma PutKeepsKeyed(items: map<JsVal, Item>, rec: Item)
    requires KeyedById(items) && "id" in rec
    ensures KeyedById(items[rec["id"] := rec])
  {
  }

  /**
   * The record an `UpdateCommand` on `key` starts from: the stored one, or
   * only the key attribute when there is none (the store creates it).
   */
  function Stored(items: map<JsVal, Item>, key: JsVal): (rec: Item)
    ensures KeyedById(items) ==> "id" in rec && rec["id"] == key
  {
    if key in items then items[key] else map["id" := key]
  }

  /**
   * A `SET` update as sent to the store: the clause as (name placeholder,
   * value placeholder) pairs in order, `ExpressionAttributeNames` and
   * `ExpressionAttributeValues`.
   */
  datatype UpdateRequest = UpdateRequest(
    assignments: seq<(string, string)>,
    names: map<string, string>,
    values: map<string, JsVal>)

  /** Every placeholder the clause mentions is defined. */
  predicate Resolves(u: UpdateRequest)
  {
    forall i :: 0 <= i < |u.assignments| ==> u.assignments[i].0 in u.names && u.assignments[i].1 in u.values
  }

  /** The record after the first `n` parts of the clause, applied left to right. */
  function SetParts(rec: Item, u: UpdateRequest, n: nat): Item
    requires Resolves(u) && n <= |u.assignments|
  {
    if n == 0 then rec
    else SetParts(rec, u, n - 1)[u.names[u.assignments[n - 1].0] := u.values[u.assignments[n - 1].1]]
  }

  /** The record the store holds (and answers with, `ALL_NEW`) after the update. */
  function ApplyUpdate(rec: Item, u: UpdateRequest): Item
    requires Resolves(u)
  {
    SetParts(rec, u, |u.assignments|)
  }

  /**
   * The first `|fields|` parts of the clause set the attributes of `fields`
   * in order, the i-th through the placeholders `namePh[i]` and `valuePh[i]`.
   */
  predicate SetsInOrder(u: UpdateRequest, fields: Payload, namePh: seq<string>, valuePh: seq<string>)
  {
    && |namePh| == |fields| && |valuePh| == |fields|
    && |u.assignments| >= |fields|
    && forall i :: 0 <= i < |fields| ==>
         && u.assignments[i] == (namePh[i], valuePh[i])
         && namePh[i] in u.names && u.names[namePh[i]] == fields[i].0
         && valuePh[i] in u.values && u.values[valuePh[i]] == fields[i].1
  }

  /** The clause ends, after part `n`, with "#updatedAt = :updatedAt" setting `updatedAt` to `now`. */
  predicate RefreshesUpdatedAt(u: UpdateRequest, n: nat, now: string)
  {
    && |u.assignments| == n + 1
    && u.assignments[n] == ("#updatedAt", ":updatedAt")
    && "#updatedAt" in u.names && u.names["#updatedAt"] == "updatedAt"
    && ":updatedAt" in u.values && u.values[":updatedAt"] == Str(now)
  }

  /** The placeholder maps define the listed placeholders and the `updatedAt` ones, nothing else. */
  predicate OnlyPlaceholders(u: UpdateRequest, namePh: seq<string>, valuePh: seq<string>)
  {
    && u.names.Keys == (set i | 0 <= i < |namePh| :: namePh[i]) + {"#updatedAt"}
    && u.values.Keys == (set i | 0 <= i < |valuePh| :: valuePh[i]) + {":updatedAt"}
  }

  /**
   * `u` sets the attributes of `fields` in order, then sets `updatedAt` to
   * `now`, and its placeholder maps define those placeholders and no others.
   */
  predicate Encodes(u: UpdateRequest, fields: Payload, namePh: seq<string>, valuePh: seq<string>, now: string)
  {
    && SetsInOrder(u, fields, namePh, valuePh)
    && RefreshesUpdatedAt(u, |fields|, now)
    && OnlyPlaceholders(u, namePh, valuePh)
  }

  /** No placeholder occurs twice. */
  predicate Distinct(xs: seq<string>)
  {
    forall i, j :: 0 <= i < j < |xs| ==> xs[i] != xs[j]
  }

  /** `ExpressionAttributeNames` once the first `n` fields are added: `namePh[i]` names the attribute of `fields[i]`. */
  function NamesAfter(fields: Payload, namePh: seq<string>, n: nat): map<string, string>
    requires n <= |fields| && |namePh| == |fields|
  {
    if n == 0 then map[] else NamesAfter(fields, namePh, n - 1)[namePh[n - 1] := fields[n - 1].0]
  }

  /** `ExpressionAttributeValues` (which starts with `:updatedAt`) once the first `n` fields are added. */
  function ValuesAfter(fields: Payload, valuePh: seq<string>, now: string, n: nat): map<string, JsVal>
    requires n <= |fields| && |valuePh| == |fields|
  {
    if n == 0 then map[":updatedAt" := Str(now)]
    else ValuesAfter(fields, valuePh, now, n - 1)[valuePh[n - 1] := fields[n - 1].1]
  }

  /** With distinct placeholders, the names map defines the first `n` of them, each naming its own field. */
  lemma {:induction false} NamesAfterDefine(fields: Payload, namePh: seq<string>, n: nat)
    requires n <= |fields| && |namePh| == |fields| && Distinct(namePh)
    ensures NamesAfter(fields, namePh, n).Keys == set j | 0 <= j < n :: namePh[j]
    ensures forall j :: 0 <= j < n ==> NamesAfter(fields, namePh, n)[namePh[j]] == fields[j].0
  {
    if n > 0 {
      NamesAfterDefine(fields, namePh, n - 1);
      assert (set j | 0 <= j < n :: namePh[j]) == (set j | 0 <= j < n - 1 :: namePh[j]) + {namePh[n - 1]};
    }
  }

  /** With distinct placeholders other than `:updatedAt`, the values map defines those of the first `n` fields and `:updatedAt`. */
  lemma {:induction false} ValuesAfterDefine(fields: Payload, valuePh: seq<string>, now: string, n: nat)
    requires n <= |fields| && |valuePh| == |fields| && Distinct(valuePh) && ":updatedAt" !in valuePh
    ensures ValuesAfter(fields, valuePh, now, n).Keys == (set j | 0 <= j < n :: valuePh[j]) + {":updatedAt"}
    ensures forall j :: 0 <= j < n ==> ValuesAfter(fields, valuePh, now, n)[valuePh[j]] == fields[j].1
    ensures ValuesAfter(fields, valuePh, now, n)[":updatedAt"] == Str(now)
  {
    if n > 0 {
      ValuesAfterDefine(fields, valuePh, now, n - 1);
      assert (set j | 0 <= j < n :: valuePh[j]) == (set j | 0 <= j < n - 1 :: valuePh[j]) + {valuePh[n - 1]};
      assert ValuesAfter(fields, valuePh, now, n) == ValuesAfter(fields, valuePh, now, n - 1)[valuePh[n - 1] := fields[n - 1].1];
      assert valuePh[n - 1] != ":updatedAt";
    }
  }

  /** The request a builder sends once every field is added and the `updatedAt` part is appended. */
  function Finished(fields: Payload, namePh: seq<string>, valuePh: seq<string>, now: string,
                    setParts: seq<(string, string)>): UpdateRequest
    requires |namePh| == |fields| && |valuePh| == |fields|
  {
    UpdateRequest(setParts + [("#updatedAt", ":updatedAt")],
                  NamesAfter(fields, namePh, |fields|)["#updatedAt" := "updatedAt"],
                  ValuesAfter(fields, valuePh, now, |fields|))
  }

  /**
   * A builder that adds "namePh[i] = valuePh[i]" for each field in order,
   * with distinct placeholders that avoid the `updatedAt` ones, and then
   * appends the `updatedAt` part, produces a request that encodes the fields.
   */
  lemma FinishedEncodes(fields: Payload, namePh: seq<string>, valuePh: seq<string>, now: string,
                        setParts: seq<(string, string)>)
    requires |namePh| == |fields| && |valuePh| == |fields| && |setParts| == |fields|
    requires Distinct(namePh) && Distinct(valuePh)
    requires "#updatedAt" !in namePh && ":updatedAt" !in valuePh
    requires forall j :: 0 <= j < |fields| ==> setParts[j] == (namePh[j], valuePh[j])
    ensures Encodes(Finished(fields, namePh, valuePh, now, setParts), fields, namePh, valuePh, now)
  {
    NamesAfterDefine(fields, namePh, |fields|);
    ValuesAfterDefine(fields, valuePh, now, |fields|);
    FinishedSetsInOrder(fields, namePh, valuePh, now, setParts);
  }

  lemma FinishedSetsInOrder(fields: Payload, namePh: seq<string>, valuePh: seq<string>, now: string,
                            setParts: seq<(string, string)>)
    requires |namePh| == |fields| && |valuePh| == |fields| && |setParts| == |fields|
    requires "#updatedAt" !in namePh
    requires forall j :: 0 <= j < |fields| ==> setParts[j] == (namePh[j], valuePh[j])
    requires NamesAfter(fields, namePh, |fields|).Keys == set j | 0 <= j < |fields| :: namePh[j]
    requires ValuesAfter(fields, valuePh, now, |fields|).Keys == (set j | 0 <= j < |fields| :: valuePh[j]) + {":updatedAt"}
    requires forall j :: 0 <= j < |fields| ==> NamesAfter(fields, namePh, |fields|)[namePh[j]] == fields[j].0
    requires forall j :: 0 <= j < |fields| ==> ValuesAfter(fields, valuePh, now, |fields|)[valuePh[j]] == fields[j].1
    ensures SetsInOrder(Finished(fields, namePh, valuePh, now, setParts), fields, namePh, valuePh)
  {
    var u := Finished(fields, namePh, valuePh, now, setParts);
    forall j | 0 <= j < |fields|
      ensures u.assignments[j] == (namePh[j], valuePh[j])
      ensures u.names[namePh[j]] == fields[j].0
    {
      assert namePh[j] != "#updatedAt";
    }
  }

  lemma {:induction false} SetPartsPrefix(rec: Item, u: UpdateRequest, fields: Payload,
                                          namePh: seq<string>, valuePh: seq<string>, n: nat)
    requires SetsInOrder(u, fields, namePh, valuePh) && Resolves(u) && n <= |fields|
    ensures SetParts(rec, u, n) == rec + AsMap(fields[..n])
  {
    if n > 0 {
      SetPartsPrefix(rec, u, fields, namePh, valuePh, n - 1);
      assert fields[..n][..n - 1] == fields[..n - 1];
      var m := AsMap(fields[..n - 1]);
      assert (rec + m)[fields[n - 1].0 := fields[n - 1].1] == rec + m[fields[n - 1].0 := fields[n - 1].1];
    }
  }

  /**
   * Applying an update that encodes `fields` overwrites exactly those
   * attributes with their values, refreshes `updatedAt`, and keeps every
   * other attribute of the record.
   */
  lemma ApplyEncoded(rec: Item, u: UpdateRequest, fields: Payload, namePh: seq<string>, valuePh: seq<string>, now: string)
    requires Encodes(u, fields, namePh, valuePh, now)
    ensures Resolves(u)
    ensures ApplyUpdate(rec, u) == (rec + AsMap(fields))["updatedAt" := Str(now)]
  {
    EncodesResolves(u, fields, namePh, valuePh, now);
    var n := |fields|;
    SetPartsPrefix(rec, u, fields, namePh, valuePh, n);
    assert fields[..n] == fields;
    assert u.assignments[n] == ("#updatedAt", ":updatedAt");
    assert ApplyUpdate(rec, u) == SetParts(rec, u, n)["updatedAt" := Str(now)];
  }

  /** Every placeholder of an encoding clause is defined. */
  lemma EncodesResolves(u: UpdateRequest, fields: Payload, namePh: seq<string>, valuePh: seq<string>, now: string)
    requires SetsInOrder(u, fields, namePh, valuePh) && RefreshesUpdatedAt(u, |fields|, now)
    ensures Resolves(u)
  {
    forall i | 0 <= i < |u.assignments|
      ensures u.assignments[i].0 in u.names && u.assignments[i].1 in u.values
    {
      if i < |fields| {
        assert u.assignments[i] == (namePh[i], valuePh[i]);
      }
    }
  }
}
