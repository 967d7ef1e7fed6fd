/** The product catalog as the order workflow sees it: product records, the request
    entries naming them, the batch lookup `findAllById`, the `Array.find` the service runs
    on its answer, and the stock decrement `updateQuantity`.  The repository behind
    `findAllById` and `updateQuantity` is not part of this model: their behaviour here is
    an assumption, stated as the predicate `Admissible` and the function `Decremented`. */
module Catalog {
  import opened Outcomes
  import opened Sequences

  type Id = string

  /** A catalog record.  `price` is only ever copied, so an integer stands for the amount. */
  datatype Product = Product(id: Id, name: string, price: int, quantity: int)

  /** One entry of the request: a product id and the quantity wanted. */
  datatype Item = Item(id: Id, quantity: int)

  /** The catalog is a table keyed by product id. */
  ghost predicate KeyedById(catalog: map<Id, Product>)
  {
    forall k :: k in catalog ==> catalog[k].id == k
  }

  /** No product has a negative quantity in stock. */
  ghost predicate StockNonNegative(catalog: map<Id, Product>)
  {
    forall k :: k in catalog ==> catalog[k].quantity >= 0
  }

  /** The ids of the request entries, in request order. */
  function RequestIds(request: seq<Item>): (ids: seq<Id>)
    ensures |ids| == |request|
    ensures forall i :: 0 <= i < |request| ==> ids[i] == request[i].id
  {
    seq(|request|, i requires 0 <= i < |request| => request[i].id)
  }

  /** The ids of a list of records, in list order. */
  function FoundIds(found: seq<Product>): (ids: seq<Id>)
    ensures |ids| == |found|
    ensures forall i :: 0 <= i < |found| ==> ids[i] == found[i].id
  {
    seq(|found|, i requires 0 <= i < |found| => found[i].id)
  }

  /** Every requested id names a catalog product and no id is requested twice. */
  ghost predicate ProductsResolve(catalog: map<Id, Product>, request: seq<Item>)
  {
    && (forall i :: 0 <= i < |request| ==> request[i].id in catalog)
    && Distinct(RequestIds(request))
  }

  /** `list.find(item => item.id === id)`: the first record with that id, if any. */
  function Find(list: seq<Product>, id: Id): (r: Option<Product>)
    ensures r.Some? ==> r.value in list && r.value.id == id
    ensures r.None? ==> id !in FoundIds(list)
    ensures forall i :: 0 <= i < |list| && list[i].id == id && (forall j :: 0 <= j < i ==> list[j].id != id) ==>
              r == Some(list[i])
  {
    if list == [] then None
    else if list[0].id == id then Some(list[0])
    else Find(list[1..], id)
  }

  /** What any well-behaved `findAllById(request)` may answer: catalog records only, each
      for an id the request names, no record twice, and every requested id the catalog
      holds present.  The order of the records is left open. */
  ghost predicate Admissible(catalog: map<Id, Product>, request: seq<Item>, found: seq<Product>)
  {
    && (forall j :: 0 <= j < |found| ==>
          found[j].id in catalog && catalog[found[j].id] == found[j] && found[j].id in RequestIds(request))
    && Distinct(FoundIds(found))
    && (forall i :: 0 <= i < |request| && request[i].id in catalog ==> request[i].id in FoundIds(found))
  }

  /** The batch lookup, as a query `WHERE id IN (...)` answers it: each existing product
      once, however often the request names it. */
  function FindAllById(catalog: map<Id, Product>, request: seq<Item>): (found: seq<Product>)
    requires KeyedById(catalog)
    ensures Admissible(catalog, request, found)
  {
    if request == [] then []
    else
      var rest := FindAllById(catalog, request[1..]);
      var id := request[0].id;
      if id in catalog && id !in FoundIds(rest) then
        AdmissibleWithFirst(catalog, request, rest);
        [catalog[id]] + rest
      else
        AdmissibleWithoutFirst(catalog, request, rest);
        rest
  }

  /** Every id the tail of a request names is named by the request. */
  lemma TailIdsRequested(request: seq<Item>, x: Id)
    requires request != []
    requires x in RequestIds(request[1..])
    ensures x in RequestIds(request)
  {
    var i :| 0 <= i < |request[1..]| && RequestIds(request[1..])[i] == x;
    assert RequestIds(request)[i + 1] == x;
  }

  /** An admissible answer for the tail of a request stays admissible for the whole request
      when the first entry's product is missing or already there. */
  lemma AdmissibleWithoutFirst(catalog: map<Id, Product>, request: seq<Item>, rest: seq<Product>)
    requires request != []
    requires Admissible(catalog, request[1..], rest)
    requires request[0].id in catalog ==> request[0].id in FoundIds(rest)
    ensures Admissible(catalog, request, rest)
  {
    forall j | 0 <= j < |rest| ensures rest[j].id in RequestIds(request) {
      TailIdsRequested(request, rest[j].id);
    }
    forall i | 1 <= i < |request| && request[i].id in catalog ensures request[i].id in FoundIds(rest) {
      assert request[i] == request[1..][i - 1];
    }
  }

  /** An admissible answer for the tail of a request, preceded by the first entry's record
      when that product exists and is not there yet, is admissible for the whole request. */
  lemma AdmissibleWithFirst(catalog: map<Id, Product>, request: seq<Item>, rest: seq<Product>)
    requires KeyedById(catalog)
    requires request != []
    requires Admissible(catalog, request[1..], rest)
    requires request[0].id in catalog && request[0].id !in FoundIds(rest)
    ensures Admissible(catalog, request, [catalog[request[0].id]] + rest)
  {
    var id := request[0].id;
    var found := [catalog[id]] + rest;
    forall j | 0 <= j < |found|
      ensures found[j].id in catalog && catalog[found[j].id] == found[j] && found[j].id in RequestIds(request)
    {
      if j == 0 {
        assert RequestIds(request)[0] == id;
      } else {
        assert found[j] == rest[j - 1];
        TailIdsRequested(request, rest[j - 1].id);
      }
    }
    forall a, b | 0 <= a < b < |found| ensures FoundIds(found)[a] != FoundIds(found)[b] {
      assert FoundIds(found)[b] == FoundIds(rest)[b - 1];
      if a > 0 {
        assert FoundIds(found)[a] == FoundIds(rest)[a - 1];
      }
    }
    forall i | 0 <= i < |request| && request[i].id in catalog ensures request[i].id in FoundIds(found) {
      if i == 0 {
        assert FoundIds(found)[0] == id;
      } else {
        assert request[i] == request[1..][i - 1];
        var j :| 0 <= j < |rest| && FoundIds(rest)[j] == request[i].id;
        assert FoundIds(found)[j + 1] == request[i].id;
      }
    }
  }

  /** The count comparison the service makes after the batch lookup: for any admissible
      answer, it has one record per request entry exactly when every requested product
      exists and no product is requested twice. */
  lemma LengthCheckMeaning(catalog: map<Id, Product>, request: seq<Item>, found: seq<Product>)
    requires Admissible(catalog, request, found)
    ensures |found| == |request| <==> ProductsResolve(catalog, request)
  {
    var requested := Elems(RequestIds(request));
    var present := Elems(FoundIds(found));
    ElemsCard(RequestIds(request));
    ElemsCard(FoundIds(found));
    assert present == requested * catalog.Keys by {
      forall x | x in present ensures x in requested && x in catalog {
        var j :| 0 <= j < |found| && FoundIds(found)[j] == x;
      }
      forall x | x in requested && x in catalog ensures x in present {
        var i :| 0 <= i < |request| && RequestIds(request)[i] == x;
      }
    }
    SubsetCard(present, requested);
    if |found| == |request| {
      assert present == requested;
      forall i | 0 <= i < |request| ensures request[i].id in catalog {
        assert RequestIds(request)[i] in requested;
      }
    }
    if ProductsResolve(catalog, request) {
      assert requested <= catalog.Keys;
      assert present == requested;
    }
  }

  /** Looking up any requested id the catalog holds in an admissible answer yields the
      catalog's record for it. */
  lemma FindResolves(catalog: map<Id, Product>, request: seq<Item>, found: seq<Product>, i: int)
    requires Admissible(catalog, request, found)
    requires 0 <= i < |request| && request[i].id in catalog
    ensures Find(found, request[i].id) == Some(catalog[request[i].id])
  {
    var r := Find(found, request[i].id);
    if r.Some? {
      var j :| 0 <= j < |found| && found[j] == r.value;
    }
  }

  /** The total quantity the request asks for under id `id`. */
  function Requested(items: seq<Item>, id: Id): int
  {
    if items == [] then 0
    else (if items[0].id == id then items[0].quantity else 0) + Requested(items[1..], id)
  }

  /** `updateQuantity` applied to one entry: the product's stock goes down by the
      requested quantity; an id the catalog lacks changes nothing. */
  function Decrement(catalog: map<Id, Product>, item: Item): (c: map<Id, Product>)
    ensures c.Keys == catalog.Keys
  {
    if item.id in catalog then
      catalog[item.id := catalog[item.id].(quantity := catalog[item.id].quantity - item.quantity)]
    else catalog
  }

  /** `updateQuantity` applied to a whole request, entry by entry. */
  function Decremented(catalog: map<Id, Product>, items: seq<Item>): (c: map<Id, Product>)
    ensures c.Keys == catalog.Keys
  {
    if items == [] then catalog
    else Decremented(Decrement(catalog, items[0]), items[1..])
  }

  /** After the update every product keeps its id, name and price, and its stock has gone
      down by exactly the total the request asks for it. */
  lemma {:induction false} DecrementedQuantity(catalog: map<Id, Product>, items: seq<Item>, k: Id)
    requires k in catalog
    ensures k in Decremented(catalog, items)
    ensures Decremented(catalog, items)[k] == catalog[k].(quantity := catalog[k].quantity - Requested(items, k))
  {
    if items != [] {
      DecrementedQuantity(Decrement(catalog, items[0]), items[1..], k);
    }
  }

  /** The update keeps every record under its own id. */
  lemma DecrementedKeyedById(catalog: map<Id, Product>, items: seq<Item>)
    requires KeyedById(catalog)
    ensures KeyedById(Decremented(catalog, items))
  {
    forall k | k in Decremented(catalog, items) ensures Decremented(catalog, items)[k].id == k {
      DecrementedQuantity(catalog, items, k);
    }
  }

  /** When no id repeats, the total asked for a requested id is that entry's quantity. */
  lemma {:induction false} RequestedOnce(items: seq<Item>, i: int)
    requires Distinct(RequestIds(items))
    requires 0 <= i < |items|
    ensures Requested(items, items[i].id) == items[i].quantity
  {
    var tail := items[1..];
    assert Distinct(RequestIds(tail)) by {
      forall a, b | 0 <= a < b < |tail| ensures tail[a].id != tail[b].id {
        assert RequestIds(items)[a + 1] != RequestIds(items)[b + 1];
      }
    }
    if i == 0 {
      forall j | 0 <= j < |tail| ensures tail[j].id != items[0].id {
        assert RequestIds(items)[0] != RequestIds(items)[j + 1];
      }
      RequestedAbsent(tail, items[0].id);
    } else {
      assert items[0].id != items[i].id by {
        assert RequestIds(items)[0] != RequestIds(items)[i];
      }
      RequestedOnce(tail, i - 1);
    }
  }

  /** Nothing is asked for an id the request does not name. */
  lemma {:induction false} RequestedAbsent(items: seq<Item>, id: Id)
    requires forall j :: 0 <= j < |items| ==> items[j].id != id
    ensures Requested(items, id) == 0
  {
    if items != [] {
      RequestedAbsent(items[1..], id);
    }
  }
}
