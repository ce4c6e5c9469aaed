/**
 * The day-15 coffee machine: a menu of three drinks, a coffee maker that
 * stocks water, milk and coffee, and the order loop that makes a drink only
 * when it is on the menu, there is enough of every ingredient and the
 * payment went through.
 */
module CoffeeMachine {
  import opened Wrappers
  import opened Text

  datatype Ingredient = Water | Milk | Coffee

  /** The order of the keys of a drink's ingredients dict (water, milk, coffee). */
  const Ingredients: seq<Ingredient> := [Water, Milk, Coffee]

  /** A drink with its recipe (ml of water and milk, g of coffee) and its price in cents. */
  datatype MenuItem = MenuItem(name: string, water: nat, milk: nat, coffee: nat, cost: nat)

  function Amount(d: MenuItem, i: Ingredient): nat
  {
    match i
    case Water => d.water
    case Milk => d.milk
    case Coffee => d.coffee
  }

  const Espresso := MenuItem("espresso", 50, 0, 18, 150)
  const Latte := MenuItem("latte", 200, 150, 24, 250)
  const Cappuccino := MenuItem("cappuccino", 250, 100, 24, 300)

  /** The menu dict, in insertion order. */
  const Menu: seq<MenuItem> := [Espresso, Latte, Cappuccino]

  /** Dict lookup by drink name over the menu entries. */
  function Lookup(items: seq<MenuItem>, name: string): (r: Option<MenuItem>)
    ensures r.Some? ==> r.value in items && r.value.name == name
    ensures r.None? <==> forall d :: d in items ==> d.name != name
  {
    if |items| == 0 then None
    else if items[0].name == name then Some(items[0])
    else Lookup(items[1..], name)
  }

  /** find_drink: the menu item of that name, or None when there is none. */
  function FindDrink(name: string): (r: Option<MenuItem>)
  {
    Lookup(Menu, name)
  }

  /** Exactly the three drinks are found, each under its own name. */
  lemma FindDrinkOnMenu(name: string)
    ensures name == "espresso" ==> FindDrink(name) == Some(Espresso)
    ensures name == "latte" ==> FindDrink(name) == Some(Latte)
    ensures name == "cappuccino" ==> FindDrink(name) == Some(Cappuccino)
    ensures FindDrink(name).None? <==> name != "espresso" && name != "latte" && name != "cappuccino"
  {
  }

  function Names(items: seq<MenuItem>): (r: seq<string>)
    ensures |r| == |items| && forall k :: 0 <= k < |r| ==> r[k] == items[k].name
  {
    if |items| == 0 then [] else [items[0].name] + Names(items[1..])
  }

  /** get_items: the menu's drink names separated by '/'. */
  function GetItems(): string
  {
    Join(Names(Menu), '/')
  }

  /** The menu line shows the three drinks in menu order, and it reads back as their names. */
  lemma GetItemsLists()
    ensures GetItems() == "espresso/latte/cappuccino"
    ensures Split(GetItems(), '/') == ["espresso", "latte", "cappuccino"]
  {
    var names := Names(Menu);
    assert names == ["espresso", "latte", "cappuccino"];
    assert Join(names[2..], '/') == "cappuccino";
    assert Join(names[1..], '/') == "latte" + "/" + "cappuccino";
    assert Join(names, '/') == "espresso" + "/" + ("latte" + "/" + "cappuccino");
    assert '/' !in names[0] && '/' !in names[1] && '/' !in names[2];
    SplitJoin(names, '/');
    MenuLine();
  }

  lemma MenuLine()
    ensures "espresso" + "/" + ("latte" + "/" + "cappuccino") == "espresso/latte/cappuccino"
  {
  }

  /** Every ingredient is stocked, with at least d's amount of it. */
  predicate Covers(stock: map<Ingredient, int>, d: MenuItem) {
    forall i: Ingredient :: i in stock && Amount(d, i) <= stock[i]
  }

  /** The stock after d's recipe is taken out of it. */
  function Deduct(stock: map<Ingredient, int>, d: MenuItem): (r: map<Ingredient, int>)
    ensures r.Keys == stock.Keys
    ensures forall i :: i in stock ==> r[i] == stock[i] - Amount(d, i)
  {
    map i | i in stock :: stock[i] - Amount(d, i)
  }

  /**
   * The stock after one pass of the run loop: a drink is deducted exactly when
   * the choice names a drink on the menu, the stock covers it and it is paid.
   */
  predicate Serves(stock: map<Ingredient, int>, choice: string, paid: bool) {
    choice != "off" && choice != "report" && FindDrink(choice).Some? && Covers(stock, FindDrink(choice).value) && paid
  }

  function AfterChoice(stock: map<Ingredient, int>, choice: string, paid: bool): map<Ingredient, int> {
    if Serves(stock, choice, paid) then Deduct(stock, FindDrink(choice).value) else stock
  }

  /** The stock after the given passes of the run loop, in order. */
  function AfterChoices(stock: map<Ingredient, int>, inputs: seq<(string, bool)>): map<Ingredient, int> {
    if |inputs| == 0 then stock
    else AfterChoice(AfterChoices(stock, inputs[..|inputs| - 1]), inputs[|inputs| - 1].0, inputs[|inputs| - 1].1)
  }

  /** The drinks the given passes of the run loop make, in order. */
  function Made(stock: map<Ingredient, int>, inputs: seq<(string, bool)>): seq<MenuItem> {
    if |inputs| == 0 then []
    else
      var before := AfterChoices(stock, inputs[..|inputs| - 1]);
      var last := inputs[|inputs| - 1];
      Made(stock, inputs[..|inputs| - 1]) + if Serves(before, last.0, last.1) then [FindDrink(last.0).value] else []
  }

  /** The total amount of ingredient i in the recipes of ds. */
  function Used(ds: seq<MenuItem>, i: Ingredient): nat {
    if |ds| == 0 then 0 else Used(ds[..|ds| - 1], i) + Amount(ds[|ds| - 1], i)
  }

  /**
   * After any sequence of choices every ingredient is still stocked, never
   * negative, and down by exactly the recipes of the drinks made.
   */
  lemma {:induction false} AfterChoicesUsed(stock: map<Ingredient, int>, inputs: seq<(string, bool)>, i: Ingredient)
    requires forall j: Ingredient :: j in stock && stock[j] >= 0
    ensures forall j: Ingredient :: j in AfterChoices(stock, inputs) && AfterChoices(stock, inputs)[j] >= 0
    ensures AfterChoices(stock, inputs)[i] == stock[i] - Used(Made(stock, inputs), i)
  {
    if |inputs| > 0 {
      var prefix := inputs[..|inputs| - 1];
      var last := inputs[|inputs| - 1];
      AfterChoicesUsed(stock, prefix, i);
      var before := AfterChoices(stock, prefix);
      var ds := Made(stock, prefix);
      if Serves(before, last.0, last.1) {
        var d := FindDrink(last.0).value;
        assert Made(stock, inputs) == ds + [d];
        assert (ds + [d])[..|ds|] == ds;
      } else {
        assert Made(stock, inputs) == ds;
      }
    }
  }

  class CoffeeMaker {
    var resources: map<Ingredient, int>

    /** Every ingredient has a stock entry. */
    ghost predicate Stocked()
      reads this
    {
      forall i: Ingredient :: i in resources
    }

    constructor ()
      ensures Stocked()
      ensures resources == map[Water := 300, Milk := 200, Coffee := 100]
    {
      var stock := map[Water := 300, Milk := 200, Coffee := 100];
      forall i: Ingredient ensures i in stock {
        match i { case Water => case Milk => case Coffee => }
      }
      resources := stock;
    }

    /** The stock covers every ingredient of d. */
    ghost predicate Sufficient(d: MenuItem)
      reads this
      requires Stocked()
    {
      Covers(resources, d)
    }

    /** is_resource_sufficient: walks the recipe and stops at the first short ingredient. */
    method IsResourceSufficient(drink: MenuItem) returns (ok: bool)
      requires Stocked()
      ensures ok <==> Sufficient(drink)
    {
      for k := 0 to |Ingredients|
        invariant forall j :: 0 <= j < k ==> Amount(drink, Ingredients[j]) <= resources[Ingredients[j]]
      {
        var item := Ingredients[k];
        if resources[item] < Amount(drink, item) {
          return false;
        }
      }
      assert Ingredients[0] == Water && Ingredients[1] == Milk && Ingredients[2] == Coffee;
      return true;
    }

    /** make_coffee: takes each recipe amount out of the stock. */
    method MakeCoffee(order: MenuItem)
      requires Stocked()
      modifies this
      ensures Stocked() && resources.Keys == old(resources.Keys)
      ensures forall i: Ingredient :: resources[i] == old(resources[i]) - Amount(order, i)
      ensures resources == Deduct(old(resources), order)
    {
      for k := 0 to |Ingredients|
        invariant Stocked() && resources.Keys == old(resources.Keys)
        invariant forall j :: 0 <= j < k ==> resources[Ingredients[j]] == old(resources[Ingredients[j]]) - Amount(order, Ingredients[j])
        invariant forall j :: k <= j < |Ingredients| ==> resources[Ingredients[j]] == old(resources[Ingredients[j]])
      {
        var item := Ingredients[k];
        resources := resources[item := resources[item] - Amount(order, item)];
      }
      assert Ingredients[0] == Water && Ingredients[1] == Milk && Ingredients[2] == Coffee;
      assert forall i: Ingredient :: resources[i] == Deduct(old(resources), order)[i];
    }
  }

  /** Deducting a drink that the stock covers leaves no ingredient negative. */
  lemma DeductKeepsStock(before: map<Ingredient, int>, after: map<Ingredient, int>, d: MenuItem)
    requires forall i: Ingredient :: i in before && i in after
    requires forall i: Ingredient :: Amount(d, i) <= before[i]
    requires forall i: Ingredient :: after[i] == before[i] - Amount(d, i)
    ensures forall i: Ingredient :: 0 <= after[i] <= before[i]
  {
  }

  class CoffeeMachineProgram {
    const coffeeMaker: CoffeeMaker

    /** The stock is complete and never negative. */
    ghost predicate Valid()
      reads this, coffeeMaker
    {
      coffeeMaker.Stocked() && forall i: Ingredient :: coffeeMaker.resources[i] >= 0
    }

    constructor ()
      ensures Valid() && fresh(coffeeMaker)
      ensures coffeeMaker.resources == map[Water := 300, Milk := 200, Coffee := 100]
    {
      coffeeMaker := new CoffeeMaker();
    }

    /**
     * One pass of the run loop for the typed choice: "off" stops the loop,
     * "report" only prints, anything else is an order. paid stands for the
     * outcome of the payment, which is asked for only once the drink exists
     * and is in stock.
     */
    method Handle(choice: string, paid: bool) returns (on: bool, made: bool)
      requires Valid()
      modifies coffeeMaker
      ensures Valid()
      ensures on <==> choice != "off"
      ensures made <==> (choice != "off" && choice != "report" && FindDrink(choice).Some?
                         && old(coffeeMaker.Sufficient(FindDrink(choice).value)) && paid)
      ensures made ==> forall i: Ingredient ::
        coffeeMaker.resources[i] == old(coffeeMaker.resources[i]) - Amount(FindDrink(choice).value, i)
      ensures !made ==> coffeeMaker.resources == old(coffeeMaker.resources)
      ensures coffeeMaker.resources == AfterChoice(old(coffeeMaker.resources), choice, paid)
    {
      on, made := true, false;
      if choice == "off" {
        on := false;
      } else if choice == "report" {
      } else {
        var drink := FindDrink(choice);
        if drink.Some? {
          var ok := coffeeMaker.IsResourceSufficient(drink.value);
          if ok && paid {
            ghost var before := coffeeMaker.resources;
            coffeeMaker.MakeCoffee(drink.value);
            DeductKeepsStock(before, coffeeMaker.resources, drink.value);
            made := true;
          }
        }
      }
    }

    /**
     * run: handles the typed choices in turn (each with its payment outcome)
     * until "off" or until the input runs out; returns how many were handled.
     */
    method Run(inputs: seq<(string, bool)>) returns (handled: nat)
      requires Valid()
      modifies coffeeMaker
      ensures Valid()
      ensures handled <= |inputs|
      ensures forall j :: 0 <= j < handled - 1 ==> inputs[j].0 != "off"
      ensures handled == |inputs| || (handled > 0 && inputs[handled - 1].0 == "off")
      ensures forall i: Ingredient :: coffeeMaker.resources[i] <= old(coffeeMaker.resources[i])
      ensures coffeeMaker.resources == AfterChoices(old(coffeeMaker.resources), inputs[..handled])
    {
      var isOn := true;
      handled := 0;
      while isOn && handled < |inputs|
        invariant Valid() && handled <= |inputs|
        invariant forall j :: 0 <= j < handled - 1 ==> inputs[j].0 != "off"
        invariant !isOn ==> handled > 0 && inputs[handled - 1].0 == "off"
        invariant isOn ==> forall j :: 0 <= j < handled ==> inputs[j].0 != "off"
        invariant forall i: Ingredient :: coffeeMaker.resources[i] <= old(coffeeMaker.resources[i])
        invariant coffeeMaker.resources == AfterChoices(old(coffeeMaker.resources), inputs[..handled])
        decreases |inputs| - handled
      {
        var made;
        isOn, made := Handle(inputs[handled].0, inputs[handled].1);
        assert inputs[..handled + 1][..handled] == inputs[..handled];
        handled := handled + 1;
      }
    }
  }
}
