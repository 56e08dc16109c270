/**
 * The preferences form: a record of three checkbox lists and one distance
 * choice. Ticking or unticking a checkbox toggles its value in one list;
 * choosing a distance replaces the distance. Both build a fresh record from the
 * previous one.
 */
module Preferences {
  import opened Sequences

  /** The record that is saved under "user_preferences". */
  datatype UserPreferences = UserPreferences(
    cafeTypes: seq<string>,
    priceRange: seq<string>,
    maxDistance: string,
    amenities: seq<string>)

  /** The keys whose value is a list of strings, the only ones the checkboxes toggle. */
  datatype ListKey = CafeTypes | PriceRange | Amenities

  /** The state the form starts in: nothing ticked, a distance of 5 km. */
  function InitialPreferences(): (p: UserPreferences)
    ensures forall k :: ListOf(p, k) == []
    ensures p.maxDistance == "5"
  {
    UserPreferences([], [], "5", [])
  }

  /** `prev[key]` for a list key. */
  function ListOf(p: UserPreferences, key: ListKey): seq<string> {
    match key
    case CafeTypes => p.cafeTypes
    case PriceRange => p.priceRange
    case Amenities => p.amenities
  }

  /** `{ ...p, [key]: list }`. */
  function WithList(p: UserPreferences, key: ListKey, list: seq<string>): (r: UserPreferences)
    ensures ListOf(r, key) == list
    ensures forall k :: k != key ==> ListOf(r, k) == ListOf(p, k)
    ensures r.maxDistance == p.maxDistance
  {
    match key
    case CafeTypes => p.(cafeTypes := list)
    case PriceRange => p.(priceRange := list)
    case Amenities => p.(amenities := list)
  }

  /** The filter callback `(v) => v !== value`. */
  function Differs(value: string): string -> bool {
    v => v != value
  }

  /**
   * The new list of a toggle: without every copy of `value` when it was there,
   * with `value` appended once at the end when it was not.
   */
  function ToggleValue(list: seq<string>, value: string): (r: seq<string>)
    ensures value in list ==> value !in r
    ensures value in list ==> multiset(r) == multiset(list)[value := 0]
    ensures value in list ==> IsSubsequence(r, list)
    ensures value !in list ==> r == list + [value]
  {
    if value in list then
      FilterMultiplicity(list, Differs(value));
      Filter(list, Differs(value))
    else
      list + [value]
  }

  /** `toggleArrayPreference(key, value)` applied to the previous preferences. */
  function ToggleArrayPreference(p: UserPreferences, key: ListKey, value: string): (r: UserPreferences)
    ensures ListOf(r, key) == ToggleValue(ListOf(p, key), value)
    ensures forall k :: k != key ==> ListOf(r, k) == ListOf(p, k)
    ensures r.maxDistance == p.maxDistance
  {
    WithList(p, key, ToggleValue(ListOf(p, key), value))
  }

  /** The distance select's change handler: `{ ...preferences, maxDistance: value }`. */
  function SelectMaxDistance(p: UserPreferences, value: string): (r: UserPreferences)
    ensures r.maxDistance == value
    ensures forall k :: ListOf(r, k) == ListOf(p, k)
  {
    p.(maxDistance := value)
  }

  /** Whether the checkbox for `value` under `key` is ticked: `list.includes(value)`. */
  predicate Checked(p: UserPreferences, key: ListKey, value: string) {
    value in ListOf(p, key)
  }

  /** A toggle flips exactly the clicked checkbox and leaves every other one as it was. */
  lemma ToggleFlipsChecked(p: UserPreferences, key: ListKey, value: string, k: ListKey, w: string)
    ensures Checked(ToggleArrayPreference(p, key, value), key, value) <==> !Checked(p, key, value)
    ensures k != key || w != value ==>
              (Checked(ToggleArrayPreference(p, key, value), k, w) <==> Checked(p, k, w))
  {
    var list := ListOf(p, key);
    if value in list {
      assert forall x :: x in Filter(list, Differs(value)) <==> x in list && x != value;
    }
  }

  /** Toggling a value that was not there, twice, gives back the original list. */
  lemma {:induction false} ToggleTwiceRestores(list: seq<string>, value: string)
    requires value !in list
    ensures ToggleValue(ToggleValue(list, value), value) == list
  {
    var once := list + [value];
    assert value in once;
    FilterConcat(list, [value], Differs(value));
    FilterKeepsAll(list, Differs(value));
    assert Filter([value], Differs(value)) == [];
  }

  /** The same for the whole record: a double toggle restores the preferences. */
  lemma ToggleTwiceRestoresPreferences(p: UserPreferences, key: ListKey, value: string)
    requires !Checked(p, key, value)
    ensures ToggleArrayPreference(ToggleArrayPreference(p, key, value), key, value) == p
  {
    ToggleTwiceRestores(ListOf(p, key), value);
  }
}
