/**
 * The saved-lookups screen (`SavedCarsView`) without its layout: the list it
 * shows, its search filter, and the state changes of refresh and delete.
 */
module CarViews {
  import opened Wrappers
  import opened Text
  import opened CarModel
  import opened DBHelper

  /** The row filter: registration or details contains the search text, ignoring case. */
  predicate MatchesSearch(car: Car, searchText: string) {
    ContainsIgnoringCase(car.registration, searchText) || ContainsIgnoringCase(car.details, searchText)
  }

  /** The cars that match, in their original order. */
  function Keep(cars: seq<Car>, searchText: string): (r: seq<Car>)
    ensures |r| <= |cars|
  {
    if cars == [] then []
    else (if MatchesSearch(cars[0], searchText) then [cars[0]] else []) + Keep(cars[1..], searchText)
  }

  /** `filterCars`: every saved car for an empty search, the matching ones otherwise. */
  function Filtered(savedCars: seq<Car>, searchText: string): seq<Car> {
    if searchText == [] then savedCars else Keep(savedCars, searchText)
  }

  /** `xs` is `ys` with some elements left out and the rest in their order. */
  predicate IsSubsequence(xs: seq<Car>, ys: seq<Car>)
    decreases |ys|
  {
    if xs == [] then true
    else if ys == [] then false
    else if xs[0] == ys[0] then IsSubsequence(xs[1..], ys[1..])
    else IsSubsequence(xs, ys[1..])
  }

  /** The kept list holds exactly the matching cars, each as often as in `cars`, in their order. */
  lemma {:induction false} KeepSpec(cars: seq<Car>, searchText: string)
    ensures forall c :: c in Keep(cars, searchText) <==> c in cars && MatchesSearch(c, searchText)
    ensures IsSubsequence(Keep(cars, searchText), cars)
    ensures forall c ::
      multiset(Keep(cars, searchText))[c] == (if MatchesSearch(c, searchText) then multiset(cars)[c] else 0)
  {
    if cars != [] {
      KeepSpec(cars[1..], searchText);
      assert cars == [cars[0]] + cars[1..];
      var tail := Keep(cars[1..], searchText);
      if MatchesSearch(cars[0], searchText) {
        var r := [cars[0]] + tail;
        assert Keep(cars, searchText) == r;
        assert r[0] == cars[0] && r[1..] == tail;
      } else if tail != [] {
        assert tail[0] in tail;
        assert tail[0] != cars[0];
        assert Keep(cars, searchText) == tail;
        assert IsSubsequence(tail, cars) == IsSubsequence(tail, cars[1..]);
      }
    }
  }

  /**
   * `filterCars` on a non-empty search keeps exactly the saved cars whose
   * registration or details contain it (ignoring case), in order; on an empty
   * search it keeps them all.
   */
  lemma FilteredSpec(savedCars: seq<Car>, searchText: string)
    ensures searchText == [] ==> Filtered(savedCars, searchText) == savedCars
    ensures forall c :: c in Filtered(savedCars, searchText) <==>
      c in savedCars && (searchText == [] || MatchesSearch(c, searchText))
    ensures IsSubsequence(Filtered(savedCars, searchText), savedCars)
    ensures forall c ::
      multiset(Filtered(savedCars, searchText))[c]
        == (if searchText == [] || MatchesSearch(c, searchText) then multiset(savedCars)[c] else 0)
  {
    KeepSpec(savedCars, searchText);
    if searchText == [] {
      SubsequenceOfSelf(savedCars);
    }
  }

  lemma {:induction false} SubsequenceOfSelf(cars: seq<Car>)
    ensures IsSubsequence(cars, cars)
  {
    if cars != [] {
      SubsequenceOfSelf(cars[1..]);
    }
  }

  /** Filtering the filtered list again changes nothing. */
  lemma {:induction false} FilteredIdempotent(savedCars: seq<Car>, searchText: string)
    ensures Filtered(Filtered(savedCars, searchText), searchText) == Filtered(savedCars, searchText)
  {
    if searchText != [] {
      KeepIdempotent(savedCars, searchText);
    }
  }

  lemma {:induction false} KeepIdempotent(cars: seq<Car>, searchText: string)
    ensures Keep(Keep(cars, searchText), searchText) == Keep(cars, searchText)
  {
    if cars != [] {
      KeepIdempotent(cars[1..], searchText);
      var tail := Keep(cars[1..], searchText);
      if MatchesSearch(cars[0], searchText) {
        var r := [cars[0]] + tail;
        assert Keep(cars, searchText) == r;
        assert r[0] == cars[0] && r[1..] == tail;
        assert Keep(r, searchText) == [r[0]] + Keep(r[1..], searchText);
      } else {
        assert Keep(cars, searchText) == tail;
      }
    }
  }

  /** `SavedCarsView`'s state: the store it reads and its `@State` fields. */
  class SavedCarsView {
    const store: CarStore
    var savedCars: seq<Car>
    var filteredCars: seq<Car>
    var selectedCar: Option<Car>
    var showAlert: bool
    var searchText: string
    var isRefreshing: bool

    constructor (store: CarStore)
      ensures this.store == store
      ensures savedCars == [] && filteredCars == [] && selectedCar == None
      ensures !showAlert && searchText == "" && !isRefreshing
    {
      this.store := store;
      savedCars, filteredCars, selectedCar := [], [], None;
      showAlert, searchText, isRefreshing := false, "", false;
    }

    method FilterCars()
      modifies this`filteredCars
      ensures filteredCars == Filtered(savedCars, searchText)
    {
      if searchText == [] {
        filteredCars := savedCars;
      } else {
        filteredCars := Keep(savedCars, searchText);
      }
    }

    /** `refreshCars`, its background fetch and main-queue update taken as one step. */
    method RefreshCars()
      modifies this`isRefreshing, this`searchText, this`savedCars, this`filteredCars
      ensures searchText == ""
      ensures savedCars == AllCars(store.State(), None)
      ensures filteredCars == savedCars
      ensures !isRefreshing
    {
      isRefreshing := true;
      searchText := "";
      var newCars := store.GetAllCars(None);
      savedCars := newCars;
      FilterCars();
      isRefreshing := false;
    }

    /** `deleteCar`: delete in the store, reload every row, filter again. */
    method DeleteCar(car: Car)
      requires store.Valid()
      modifies store, this`savedCars, this`filteredCars
      ensures store.Valid()
      ensures store.State() == Delete(old(store.State()), car.id)
      ensures savedCars == AllCars(store.State(), None)
      ensures filteredCars == Filtered(savedCars, searchText)
      ensures forall c :: c in savedCars ==> c.id != car.id
      ensures forall c :: c in filteredCars ==> c.id != car.id
    {
      store.DeleteCar(car);
      savedCars := store.GetAllCars(None);
      FilterCars();
      DeleteExact(old(store.State()), car.id);
      FilteredSpec(savedCars, searchText);
    }

    /** `deleteCars(at:)`, the swipe action: it only stages each row for the alert. */
    method DeleteCars(offsets: seq<nat>)
      requires forall k :: 0 <= k < |offsets| ==> offsets[k] < |filteredCars|
      modifies this`selectedCar, this`showAlert
      ensures selectedCar == if offsets == [] then old(selectedCar) else Some(filteredCars[offsets[|offsets| - 1]])
      ensures showAlert == (old(showAlert) != (|offsets| % 2 == 1))
    {
      var k := 0;
      while k < |offsets|
        invariant 0 <= k <= |offsets|
        invariant selectedCar == if k == 0 then old(selectedCar) else Some(filteredCars[offsets[k - 1]])
        invariant showAlert == (old(showAlert) != (k % 2 == 1))
      {
        selectedCar := Some(filteredCars[offsets[k]]);
        showAlert := !showAlert;
        k := k + 1;
      }
    }

    /** The context menu's Delete: stage the car and toggle the alert. */
    method RequestDelete(car: Car)
      modifies this`selectedCar, this`showAlert
      ensures selectedCar == Some(car) && showAlert == !old(showAlert)
    {
      selectedCar := Some(car);
      showAlert := !showAlert;
    }

    /** The alert's destructive Delete button: delete the staged car, if any. */
    method ConfirmDelete()
      requires store.Valid()
      modifies store, this`savedCars, this`filteredCars
      ensures store.Valid()
      ensures selectedCar.None? ==>
        && store.State() == old(store.State())
        && savedCars == old(savedCars) && filteredCars == old(filteredCars)
      ensures selectedCar.Some? ==>
        && store.State() == Delete(old(store.State()), selectedCar.value.id)
        && savedCars == AllCars(store.State(), None)
        && filteredCars == Filtered(savedCars, searchText)
    {
      if selectedCar.Some? {
        DeleteCar(selectedCar.value);
      }
    }
  }
}
