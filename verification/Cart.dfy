/**
 * The item list of the order form (components/orders/create-order-form.tsx): a list edited by
 * three handlers, against a finite map from option key to what is in the order.
 */
module Cart {
  import opened Text

  datatype OrderableOption = OrderableOption(
    key: string, productId: string, variantId: Option<string>, unitPriceMinor: int)

  datatype SelectedItem = SelectedItem(option: OrderableOption, quantity: int)

  datatype Event =
    | AddItem(option: OrderableOption)
    | UpdateQuantity(key: string, quantity: int)
    | RemoveItem(key: string)

  // ----- The handlers, on the list -----

  predicate HasKey(items: seq<SelectedItem>, key: string) {
    exists i :: 0 <= i < |items| && items[i].option.key == key
  }

  /** `items.map` that replaces the quantity of the items with this key. */
  function MapQuantity(items: seq<SelectedItem>, key: string, quantity: int -> int): (r: seq<SelectedItem>)
    ensures |r| == |items|
    ensures forall i :: 0 <= i < |r| ==>
              r[i] == if items[i].option.key == key then items[i].(quantity := quantity(items[i].quantity))
                      else items[i]
  {
    seq(|items|, i requires 0 <= i < |items| =>
      if items[i].option.key == key then items[i].(quantity := quantity(items[i].quantity)) else items[i])
  }

  /** `items.filter` that drops the items with this key. */
  function Without(items: seq<SelectedItem>, key: string): seq<SelectedItem> {
    if items == [] then []
    else (if items[0].option.key != key then [items[0]] else []) + Without(items[1..], key)
  }

  function Apply(items: seq<SelectedItem>, e: Event): seq<SelectedItem> {
    match e
    case AddItem(option) =>
      if HasKey(items, option.key) then MapQuantity(items, option.key, q => q + 1)
      else items + [SelectedItem(option, 1)]
    case UpdateQuantity(key, quantity) =>
      if quantity <= 0 then Without(items, key) else MapQuantity(items, key, q => quantity)
    case RemoveItem(key) => Without(items, key)
  }

  function Run(items: seq<SelectedItem>, events: seq<Event>): seq<SelectedItem>
    decreases events
  {
    if events == [] then items else Run(Apply(items, events[0]), events[1..])
  }

  // ----- The same on a finite map -----

  type Contents = map<string, SelectedItem>

  /** Adding counts up, keeping the option first added; a quantity of zero or less removes. */
  function ApplyMap(m: Contents, e: Event): Contents {
    match e
    case AddItem(option) =>
      if option.key in m then m[option.key := m[option.key].(quantity := m[option.key].quantity + 1)]
      else m[option.key := SelectedItem(option, 1)]
    case UpdateQuantity(key, quantity) =>
      if quantity <= 0 then m - {key}
      else if key in m then m[key := m[key].(quantity := quantity)]
      else m
    case RemoveItem(key) => m - {key}
  }

  function RunMap(m: Contents, events: seq<Event>): Contents
    decreases events
  {
    if events == [] then m else RunMap(ApplyMap(m, events[0]), events[1..])
  }

  function AsMap(items: seq<SelectedItem>): Contents {
    if items == [] then map[] else AsMap(items[1..])[items[0].option.key := items[0]]
  }

  // ----- The list refines the map -----

  predicate WellFormed(items: seq<SelectedItem>) {
    && (forall i, j :: 0 <= i < j < |items| ==> items[i].option.key != items[j].option.key)
    && (forall i :: 0 <= i < |items| ==> items[i].quantity >= 1)
  }

  lemma {:induction false} AsMapEntries(items: seq<SelectedItem>)
    requires WellFormed(items)
    ensures forall k :: k in AsMap(items) <==> HasKey(items, k)
    ensures forall i :: 0 <= i < |items| ==>
              items[i].option.key in AsMap(items) && AsMap(items)[items[i].option.key] == items[i]
  {
    if items != [] {
      var rest := items[1..];
      AsMapEntries(rest);
      forall k
        ensures k in AsMap(items) <==> HasKey(items, k)
      {
        if HasKey(rest, k) {
          var i :| 0 <= i < |rest| && rest[i].option.key == k;
          assert items[i + 1].option.key == k;
        }
        if HasKey(items, k) && k != items[0].option.key {
          var i :| 0 <= i < |items| && items[i].option.key == k;
          assert rest[i - 1].option.key == k;
        }
      }
      forall i | 0 <= i < |items|
        ensures items[i].option.key in AsMap(items) && AsMap(items)[items[i].option.key] == items[i]
      {
        if i > 0 {
          assert rest[i - 1] == items[i];
        }
      }
    }
  }

  /** A map with just the entries of a well-formed list is that list's map. */
  lemma {:induction false} MapOfEntries(items: seq<SelectedItem>, m: Contents)
    requires WellFormed(items)
    requires forall k :: k in m ==> HasKey(items, k)
    requires forall i :: 0 <= i < |items| ==>
               items[i].option.key in m && m[items[i].option.key] == items[i]
    ensures AsMap(items) == m
  {
    AsMapEntries(items);
    assert forall k :: k in AsMap(items) <==> k in m;
    forall k | k in m
      ensures AsMap(items)[k] == m[k]
    {
      var i :| 0 <= i < |items| && items[i].option.key == k;
    }
  }

  lemma {:induction false} WithoutSelects(items: seq<SelectedItem>, key: string)
    requires WellFormed(items)
    ensures WellFormed(Without(items, key))
    ensures forall k :: HasKey(Without(items, key), k) <==> HasKey(items, k) && k != key
    ensures forall i :: 0 <= i < |Without(items, key)| ==> Without(items, key)[i] in items
  {
    if items != [] {
      var rest, r := Without(items[1..], key), Without(items, key);
      WithoutSelects(items[1..], key);
      assert items == [items[0]] + items[1..];
      WithoutKeys(items, key);
      if items[0].option.key != key {
        assert r == [items[0]] + rest;
        forall j | 0 <= j < |rest|
          ensures rest[j].option.key != items[0].option.key
        {
          assert rest[j] in items[1..];
          var i :| 0 <= i < |items[1..]| && items[1..][i] == rest[j];
          assert items[i + 1] == rest[j];
        }
      }
    }
  }

  lemma {:induction false} WithoutKeys(items: seq<SelectedItem>, key: string)
    requires items != []
    requires forall k :: HasKey(Without(items[1..], key), k) <==> HasKey(items[1..], k) && k != key
    ensures forall k :: HasKey(Without(items, key), k) <==> HasKey(items, k) && k != key
  {
    var rest, r := Without(items[1..], key), Without(items, key);
    forall k
      ensures HasKey(r, k) <==> HasKey(items, k) && k != key
    {
      ConsHasKey(items[0], items[1..], k);
      assert items == [items[0]] + items[1..];
      if items[0].option.key != key {
        ConsHasKey(items[0], rest, k);
      } else {
        assert r == rest;
      }
    }
  }

  lemma {:induction false} ConsHasKey(first: SelectedItem, rest: seq<SelectedItem>, key: string)
    ensures HasKey([first] + rest, key) <==> first.option.key == key || HasKey(rest, key)
  {
    var all := [first] + rest;
    if HasKey(rest, key) {
      var i :| 0 <= i < |rest| && rest[i].option.key == key;
      assert all[i + 1].option.key == key;
    }
    if first.option.key == key {
      assert all[0].option.key == key;
    }
    if HasKey(all, key) && first.option.key != key {
      var i :| 0 <= i < |all| && all[i].option.key == key;
      assert rest[i - 1].option.key == key;
    }
  }

  lemma {:induction false} AddNewRefines(items: seq<SelectedItem>, option: OrderableOption)
    requires WellFormed(items) && !HasKey(items, option.key)
    ensures WellFormed(Apply(items, AddItem(option)))
    ensures AsMap(Apply(items, AddItem(option))) == ApplyMap(AsMap(items), AddItem(option))
  {
    var next := items + [SelectedItem(option, 1)];
    AsMapEntries(items);
    var m := AsMap(items)[option.key := SelectedItem(option, 1)];
    forall k | k in m
      ensures HasKey(next, k)
    {
      if k == option.key {
        assert next[|items|].option.key == k;
      } else {
        var i :| 0 <= i < |items| && items[i].option.key == k;
        assert next[i].option.key == k;
      }
    }
    assert forall i :: 0 <= i < |items| ==> items[i].option.key != option.key;
    MapOfEntries(next, m);
  }

  lemma {:induction false} MapQuantityRefines(items: seq<SelectedItem>, key: string, quantity: int -> int)
    requires WellFormed(items)
    requires forall q :: q >= 1 ==> quantity(q) >= 1
    ensures WellFormed(MapQuantity(items, key, quantity))
    ensures AsMap(MapQuantity(items, key, quantity))
         == var m := AsMap(items);
            if key in m then m[key := m[key].(quantity := quantity(m[key].quantity))] else m
  {
    var next := MapQuantity(items, key, quantity);
    var m := AsMap(items);
    AsMapEntries(items);
    var changed := if key in m then m[key := m[key].(quantity := quantity(m[key].quantity))] else m;
    SameKeys(items, next);
    assert changed.Keys == m.Keys;
    forall i | 0 <= i < |next|
      ensures next[i].option.key in changed && changed[next[i].option.key] == next[i]
    {
      assert m[items[i].option.key] == items[i];
    }
    MapOfEntries(next, changed);
  }

  lemma {:induction false} SameKeys(a: seq<SelectedItem>, b: seq<SelectedItem>)
    requires |a| == |b| && forall i :: 0 <= i < |a| ==> a[i].option.key == b[i].option.key
    ensures forall k :: HasKey(a, k) ==> HasKey(b, k)
  {
    forall k | HasKey(a, k)
      ensures HasKey(b, k)
    {
      var i :| 0 <= i < |a| && a[i].option.key == k;
      assert b[i].option.key == k;
    }
  }

  lemma {:induction false} WithoutRefines(items: seq<SelectedItem>, key: string)
    requires WellFormed(items)
    ensures WellFormed(Without(items, key))
    ensures AsMap(Without(items, key)) == AsMap(items) - {key}
  {
    var next := Without(items, key);
    WithoutSelects(items, key);
    AsMapEntries(items);
    forall i | 0 <= i < |next|
      ensures next[i].option.key in AsMap(items) - {key} && (AsMap(items) - {key})[next[i].option.key] == next[i]
    {
      assert next[i] in items;
      assert HasKey(next, next[i].option.key);
    }
    MapOfEntries(next, AsMap(items) - {key});
  }

  lemma {:induction false} ApplyRefines(items: seq<SelectedItem>, e: Event)
    requires WellFormed(items)
    ensures WellFormed(Apply(items, e)) && AsMap(Apply(items, e)) == ApplyMap(AsMap(items), e)
  {
    AsMapEntries(items);
    match e
    case AddItem(option) =>
      if HasKey(items, option.key) {
        MapQuantityRefines(items, option.key, q => q + 1);
      } else {
        AddNewRefines(items, option);
      }
    case UpdateQuantity(key, quantity) =>
      if quantity <= 0 {
        WithoutRefines(items, key);
      } else {
        MapQuantityRefines(items, key, q => quantity);
      }
    case RemoveItem(key) =>
      WithoutRefines(items, key);
  }

  /** After any run the list has distinct keys and positive quantities and is exactly the map
      the same events build. */
  lemma {:induction false} RunRefines(items: seq<SelectedItem>, events: seq<Event>)
    requires WellFormed(items)
    ensures WellFormed(Run(items, events))
    ensures AsMap(Run(items, events)) == RunMap(AsMap(items), events)
    decreases events
  {
    if events != [] {
      ApplyRefines(items, events[0]);
      RunRefines(Apply(items, events[0]), events[1..]);
    }
  }

  // ----- Subtotal -----

  function LineTotal(item: SelectedItem): int {
    item.option.unitPriceMinor * item.quantity
  }

  function Subtotal(items: seq<SelectedItem>): int {
    if items == [] then 0 else LineTotal(items[0]) + Subtotal(items[1..])
  }

  /** The sum over a map, its entries taken in any order. */
  ghost function MapTotal(m: Contents): int
    decreases |m|
  {
    if m == map[] then 0
    else
      var k :| k in m;
      RemoveShrinks(m, k);
      LineTotal(m[k]) + MapTotal(m - {k})
  }

  lemma {:induction false} RemoveShrinks(m: Contents, key: string)
    requires key in m
    ensures |m - {key}| < |m|
  {
    assert (m - {key}).Keys == m.Keys - {key};
  }

  lemma {:induction false} MapTotalAny(m: Contents, key: string)
    requires key in m
    ensures MapTotal(m) == LineTotal(m[key]) + MapTotal(m - {key})
    decreases |m|
  {
    var k :| k in m && MapTotal(m) == LineTotal(m[k]) + MapTotal(m - {k});
    if k != key {
      RemoveShrinks(m, k);
      MapTotalAny(m - {k}, key);
      RemoveShrinks(m, key);
      MapTotalAny(m - {key}, k);
      assert m - {k} - {key} == m - {key} - {k};
    }
  }

  /** The running subtotal of the list is the sum over the map. */
  lemma {:induction false} SubtotalIsMapTotal(items: seq<SelectedItem>)
    requires WellFormed(items)
    ensures Subtotal(items) == MapTotal(AsMap(items))
  {
    if items != [] {
      var key := items[0].option.key;
      SubtotalIsMapTotal(items[1..]);
      AsMapEntries(items[1..]);
      MapTotalAny(AsMap(items), key);
      assert AsMap(items) - {key} == AsMap(items[1..]);
    }
  }

  // ----- What is submitted -----

  datatype Line = Line(productId: string, variantId: Option<string>, quantity: int)

  datatype OrderInput = OrderInput(lines: seq<Line>, discount: Option<int>, deliveryFee: Option<int>, tax: Option<int>)

  function Max(a: int, b: int): int {
    if a >= b then a else b
  }

  function Estimate(items: seq<SelectedItem>, discount: int, deliveryFee: int, tax: int): int {
    Max(0, Subtotal(items) - discount + deliveryFee + tax)
  }

  function IfPositive(amount: int): Option<int> {
    if amount > 0 then Some(amount) else None
  }

  function Lines(items: seq<SelectedItem>): (r: seq<Line>)
    ensures |r| == |items|
  {
    seq(|items|, i requires 0 <= i < |items| =>
      Line(items[i].option.productId, items[i].option.variantId, items[i].quantity))
  }

  function Submitted(items: seq<SelectedItem>, discount: int, deliveryFee: int, tax: int): OrderInput {
    OrderInput(Lines(items), IfPositive(discount), IfPositive(deliveryFee), IfPositive(tax))
  }

  function OrZero(amount: Option<int>): int {
    match amount case None => 0 case Some(a) => a
  }

  type Prices = (string, Option<string>) -> int

  function GoodsTotal(lines: seq<Line>, price: Prices): int {
    if lines == [] then 0
    else price(lines[0].productId, lines[0].variantId) * lines[0].quantity + GoodsTotal(lines[1..], price)
  }

  /** The estimate's own formula on the submitted input. */
  function Recomputed(input: OrderInput, price: Prices): int {
    Max(0, GoodsTotal(input.lines, price) - OrZero(input.discount) + OrZero(input.deliveryFee) + OrZero(input.tax))
  }

  predicate PricesAgree(items: seq<SelectedItem>, price: Prices) {
    forall i :: 0 <= i < |items| ==>
      price(items[i].option.productId, items[i].option.variantId) == items[i].option.unitPriceMinor
  }

  lemma {:induction false} GoodsAreSubtotal(items: seq<SelectedItem>, price: Prices)
    requires PricesAgree(items, price)
    ensures GoodsTotal(Lines(items), price) == Subtotal(items)
  {
    if items != [] {
      assert Lines(items)[1..] == Lines(items[1..]);
      GoodsAreSubtotal(items[1..], price);
    }
  }

  /** What a negative entry adds to the estimate and the submitted input leaves out. */
  function Dropped(discount: int, deliveryFee: int, tax: int): int {
    Max(0, -discount) - Max(0, -deliveryFee) - Max(0, -tax)
  }

  /**
   * The estimate shown equals the total of what is submitted exactly when negative entries
   * cancel out, or when both come to nothing; in particular for non-negative entries.
   */
  lemma {:induction false} EstimateMatchesSubmitted(items: seq<SelectedItem>, discount: int, deliveryFee: int,
                                                    tax: int, price: Prices)
    requires PricesAgree(items, price)
    ensures var raw := Subtotal(items) - discount + deliveryFee + tax;
            var dropped := Dropped(discount, deliveryFee, tax);
            Estimate(items, discount, deliveryFee, tax)
            == Recomputed(Submitted(items, discount, deliveryFee, tax), price)
            <==> dropped == 0 || (raw <= 0 && raw - dropped <= 0)
    ensures discount >= 0 && deliveryFee >= 0 && tax >= 0 ==>
            Estimate(items, discount, deliveryFee, tax)
            == Recomputed(Submitted(items, discount, deliveryFee, tax), price)
  {
    GoodsAreSubtotal(items, price);
  }

  /** The catalogue's keys: the product id, or `productId:variantId`. */
  predicate KeysFromCatalogue(items: seq<SelectedItem>) {
    forall i :: 0 <= i < |items| ==> items[i].option.key == CatalogueKey(items[i].option)
  }

  function CatalogueKey(option: OrderableOption): string {
    match option.variantId
    case None => option.productId
    case Some(variant) => option.productId + ":" + variant
  }

  /** Over any run the submitted lines name each product and variant once. */
  lemma {:induction false} SubmittedLinesDistinct(events: seq<Event>, i: nat, j: nat)
    requires KeysFromCatalogue(Run([], events)) && i < j < |Run([], events)|
    ensures var lines := Lines(Run([], events));
            (lines[i].productId, lines[i].variantId) != (lines[j].productId, lines[j].variantId)
            && lines[i].quantity >= 1
  {
    RunRefines([], events);
    var items := Run([], events);
    assert items[i].option.key != items[j].option.key;
  }

  // ----- The component's state and handlers -----

  /** A map with these entries and no other keys is the map of quantities. */
  lemma {:induction false} QuantitiesOf(items: seq<SelectedItem>, selected: map<string, int>)
    requires WellFormed(items)
    requires forall j :: 0 <= j < |items| ==>
               items[j].option.key in selected && selected[items[j].option.key] == items[j].quantity
    requires forall k :: k in selected ==> k in AsMap(items)
    ensures selected == map k | k in AsMap(items) :: AsMap(items)[k].quantity
  {
    AsMapEntries(items);
    forall k | k in AsMap(items)
      ensures k in selected && selected[k] == AsMap(items)[k].quantity
    {
      var i :| 0 <= i < |items| && items[i].option.key == k;
    }
  }

  class OrderForm {
    var items: seq<SelectedItem>

    ghost predicate Valid()
      reads this
    {
      WellFormed(items)
    }

    constructor ()
      ensures Valid() && items == []
    {
      items := [];
    }

    method AddItem(option: OrderableOption)
      requires Valid()
      modifies this
      ensures Valid() && items == Apply(old(items), Event.AddItem(option))
      ensures AsMap(items) == ApplyMap(old(AsMap(items)), Event.AddItem(option))
    {
      ApplyRefines(items, Event.AddItem(option));
      if exists i :: 0 <= i < |items| && items[i].option.key == option.key {
        items := MapQuantity(items, option.key, q => q + 1);
      } else {
        items := items + [SelectedItem(option, 1)];
      }
    }

    method UpdateQuantity(key: string, quantity: int)
      requires Valid()
      modifies this
      ensures Valid() && items == Apply(old(items), Event.UpdateQuantity(key, quantity))
      ensures AsMap(items) == ApplyMap(old(AsMap(items)), Event.UpdateQuantity(key, quantity))
    {
      ApplyRefines(items, Event.UpdateQuantity(key, quantity));
      if quantity <= 0 {
        items := Without(items, key);
      } else {
        items := MapQuantity(items, key, q => quantity);
      }
    }

    method RemoveItem(key: string)
      requires Valid()
      modifies this
      ensures Valid() && items == Apply(old(items), Event.RemoveItem(key))
      ensures AsMap(items) == ApplyMap(old(AsMap(items)), Event.RemoveItem(key))
    {
      ApplyRefines(items, Event.RemoveItem(key));
      items := Without(items, key);
    }

    /** The map handed to the picker, filled in a fold over the list. */
    method SelectedMap() returns (selected: map<string, int>)
      requires Valid()
      ensures selected == map k | k in AsMap(items) :: AsMap(items)[k].quantity
    {
      selected := map[];
      AsMapEntries(items);
      for i := 0 to |items|
        invariant forall j :: 0 <= j < i ==>
                    items[j].option.key in selected && selected[items[j].option.key] == items[j].quantity
        invariant forall k :: k in selected ==> k in AsMap(items)
      {
        selected := selected[items[i].option.key := items[i].quantity];
      }
      QuantitiesOf(items, selected);
    }

    /** The fold of the subtotal. */
    method SubtotalMinor() returns (sum: int)
      requires Valid()
      ensures sum == MapTotal(AsMap(items))
    {
      sum := 0;
      assert items[0..] == items;
      for i := 0 to |items|
        invariant sum + Subtotal(items[i..]) == Subtotal(items)
      {
        assert items[i..][1..] == items[i + 1..];
        sum := sum + items[i].option.unitPriceMinor * items[i].quantity;
      }
      SubtotalIsMapTotal(items);
    }
  }
}
