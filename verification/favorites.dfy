/**
 * The favorites store: a set of booth ids, listed sorted, toggled and removed
 * by trimmed id, written to local storage and broadcast on every change, and
 * replaced by what the bus or another tab reports only when the sorted
 * contents differ. React state and the storage itself are left to the caller:
 * every handler maps the previous set to the next one.
 */
module Favorites {

  import opened Options
  import opened Text
  import Records
  import Sorting

  const StorageKey: string := "booth-favorites:v1"

  /** A JavaScript `Set` of ids: distinct, in insertion order. */
  type Ids = seq<string>

  /** What every handler keeps: distinct, non-empty ids. */
  predicate Valid(s: Ids) {
    Records.Distinct(s) && "" !in s
  }

  // ---------------------------------------------------------------------------
  // Arrays

  /** `toStableArray`: the non-empty strings, sorted, duplicates kept. */
  function StableArray(v: seq<string>): (r: seq<string>)
    ensures Sorting.Sorted(r)
    ensures forall x :: x in r <==> x in v && x != ""
  {
    var ne := Records.NonEmpty(v);
    var r := Sorting.Sort(ne);
    assert forall x :: x in r <==> x in ne by {
      forall x ensures x in r <==> x in ne {
        assert x in r <==> x in multiset(r);
        assert x in ne <==> x in multiset(ne);
      }
    }
    Records.NonEmptyCounts(v);
    r
  }

  /** Duplicates survive: each non-empty string occurs as often as in the input. */
  lemma StableArrayCounts(v: seq<string>)
    ensures forall x :: x != "" ==> multiset(StableArray(v))[x] == multiset(v)[x]
    ensures multiset(StableArray(v))[""] == 0
  {
    Records.NonEmptyCounts(v);
  }

  /** A stable array is its own stable array. */
  lemma StableArrayIdempotent(v: seq<string>)
    ensures StableArray(StableArray(v)) == StableArray(v)
  {
    var r := StableArray(v);
    forall i | 0 <= i < |r| ensures r[i] != "" {
      assert r[i] in r;
    }
    Records.NonEmptyKeeps(r);
    Sorting.SortedFixed(r);
  }

  /** `arraysEqual`: same length, then element by element. */
  method ArraysEqual(a: seq<string>, b: seq<string>) returns (eq: bool)
    ensures eq <==> a == b
  {
    if |a| != |b| {
      return false;
    }
    var i := 0;
    while i < |a|
      invariant 0 <= i <= |a|
      invariant a[..i] == b[..i]
    {
      if a[i] != b[i] {
        return false;
      }
      i := i + 1;
    }
    assert a == a[..i] && b == b[..i];
    return true;
  }

  // ---------------------------------------------------------------------------
  // Sets

  /** `new Set(xs)`: first occurrences, in order. */
  function FromArray(xs: seq<string>): (r: Ids)
    ensures Records.Distinct(r)
    ensures forall x :: x in r <==> x in xs
    ensures Records.Distinct(xs) ==> r == xs
  {
    if |xs| == 0 then []
    else
      var p := FromArray(xs[..|xs| - 1]);
      var x := xs[|xs| - 1];
      assert xs == xs[..|xs| - 1] + [x];
      if x in p then p else p + [x]
  }

  /** `next.delete(x)`. */
  function Delete(s: Ids, x: string): (r: Ids)
    ensures forall y :: y in r <==> y in s && y != x
    ensures Records.Distinct(s) ==> Records.Distinct(r)
    ensures x !in s ==> r == s
  {
    if |s| == 0 then []
    else
      var t := Delete(s[1..], x);
      assert s == [s[0]] + s[1..];
      assert Records.Distinct(s) ==> s[0] !in s[1..] && Records.Distinct(s[1..]);
      if s[0] == x then t else [s[0]] + t
  }

  /** For distinct sequences, the multiset is the set. */
  lemma {:induction false} DistinctCounts(s: seq<string>)
    requires Records.Distinct(s)
    ensures forall x :: multiset(s)[x] == if x in s then 1 else 0
  {
    if |s| > 0 {
      DistinctCounts(s[1..]);
      assert s == [s[0]] + s[1..];
    }
  }

  lemma SameMembersSameMultiset(a: seq<string>, b: seq<string>)
    requires Records.Distinct(a) && Records.Distinct(b)
    requires forall x :: x in a <==> x in b
    ensures multiset(a) == multiset(b)
  {
    DistinctCounts(a);
    DistinctCounts(b);
    assert forall x :: multiset(a)[x] == multiset(b)[x];
  }

  // ---------------------------------------------------------------------------
  // The hook

  /** A stored value: absent or empty, not JSON, or an array of strings. */
  datatype NewValue = Cleared | Malformed | Parsed(items: seq<string>)

  /** The initial state: the stored array, cleaned and sorted. */
  function Init(stored: seq<string>): (s: Ids)
    ensures Valid(s)
    ensures forall x :: x in s <==> x in stored && x != ""
  {
    FromArray(StableArray(stored))
  }

  /** `safeLocalGet(KEY, [])` fed to the initializer: a missing or unparsable entry reads as empty. */
  function Load(stored: NewValue): (s: Ids)
    ensures Valid(s)
    ensures !stored.Parsed? ==> s == []
    ensures stored.Parsed? ==> forall x :: x in s <==> x in stored.items && x != ""
  {
    match stored
    case Parsed(items) => Init(items)
    case _ => Init([])
  }

  /** `isFav`: exact membership, without trimming. */
  predicate IsFav(s: Ids, id: string) {
    id in s
  }

  /** `toggle`: the trimmed id is removed if present and added if not; a blank id changes nothing. */
  function Toggle(s: Ids, id: string): (r: Ids)
    ensures Valid(s) ==> Valid(r)
    ensures forall x :: x in r <==> (x in s) != (x == Trim(id) && Trim(id) != "")
  {
    var norm := Trim(id);
    if norm == "" then s
    else if norm in s then Delete(s, norm)
    else s + [norm]
  }

  /** `remove`: the trimmed id is removed; the set is returned as it was when it is absent. */
  function Remove(s: Ids, id: string): (r: Ids)
    ensures Valid(s) ==> Valid(r)
    ensures forall x :: x in r <==> x in s && (Trim(id) == "" || x != Trim(id))
    ensures Trim(id) !in s ==> r == s
  {
    var norm := Trim(id);
    if norm == "" then s
    else if norm !in s then s
    else Delete(s, norm)
  }

  /** `clear`. */
  function Clear(): (r: Ids)
    ensures Valid(r) && forall x :: x !in r
  {
    []
  }

  /** `list`: the sorted contents; also what is written to storage and broadcast. */
  function List(s: Ids): (r: seq<string>)
    ensures Sorting.Sorted(r)
    ensures forall x :: x in r <==> x in s && x != ""
  {
    StableArray(s)
  }

  /** `count`. */
  function Count(s: Ids): nat {
    |List(s)|
  }

  /** The shared body of the bus and storage handlers: `prev` is kept when its
      sorted contents equal the incoming ones. */
  function Sync(prev: Ids, incoming: seq<string>): (r: Ids)
    ensures StableArray(prev) == StableArray(incoming) ==> r == prev
    ensures Valid(prev) ==> Valid(r)
    ensures Valid(prev) ==> forall x :: x in r <==> x in incoming && x != ""
  {
    var next := StableArray(incoming);
    if StableArray(prev) == next then prev else FromArray(next)
  }

  /** The bus listener: `detail ?? []`. */
  function OnBus(prev: Ids, detail: Option<seq<string>>): (r: Ids)
    ensures Valid(prev) ==> Valid(r)
  {
    Sync(prev, detail.GetOr([]))
  }


  datatype StorageEvent = StorageEvent(key: string, newValue: NewValue)

  /** The storage listener: other keys and unparsable values change nothing. */
  function OnStorage(prev: Ids, e: StorageEvent): (r: Ids)
    ensures e.key != StorageKey || e.newValue.Malformed? ==> r == prev
    ensures Valid(prev) ==> Valid(r)
  {
    if e.key != StorageKey then prev
    else
      match e.newValue
      case Malformed => prev
      case Cleared => Sync(prev, [])
      case Parsed(items) => Sync(prev, items)
  }

  // ---------------------------------------------------------------------------
  // Properties

  /** Two valid sets with the same members list the same. */
  lemma ListByMembers(a: Ids, b: Ids)
    requires Valid(a) && Valid(b)
    requires forall x :: x in a <==> x in b
    ensures List(a) == List(b)
  {
    forall i | 0 <= i < |a| ensures a[i] != "" {}
    forall i | 0 <= i < |b| ensures b[i] != "" {}
    Records.NonEmptyKeeps(a);
    Records.NonEmptyKeeps(b);
    SameMembersSameMultiset(a, b);
    Sorting.SortByContents(a, b);
  }

  lemma RepeatCounts(s: seq<string>, i: nat, j: nat)
    requires i < j < |s| && s[i] == s[j]
    ensures multiset(s)[s[i]] >= 2
  {
    assert s == s[..j] + s[j..];
    assert s[i] == s[..j][i];
    assert s[j] == s[j..][0];
  }

  /** The list has no duplicates. */
  lemma ListDistinct(s: Ids)
    requires Valid(s)
    ensures Records.Distinct(List(s))
  {
    var l := List(s);
    forall i | 0 <= i < |s| ensures s[i] != "" {}
    Records.NonEmptyKeeps(s);
    DistinctCounts(s);
    forall i, j | 0 <= i < j < |l| ensures l[i] != l[j] {
      if l[i] == l[j] {
        RepeatCounts(l, i, j);
      }
    }
  }

  /** `count` is the number of favorites. */
  lemma CountIsSize(s: Ids)
    requires Valid(s)
    ensures Count(s) == |s|
  {
    forall i | 0 <= i < |s| ensures s[i] != "" {}
    Records.NonEmptyKeeps(s);
  }

  /** Toggling the same id twice restores the list. */
  lemma ToggleTwice(s: Ids, id: string)
    requires Valid(s)
    ensures forall x :: x in Toggle(Toggle(s, id), id) <==> x in s
    ensures List(Toggle(Toggle(s, id), id)) == List(s)
  {
    ListByMembers(Toggle(Toggle(s, id), id), s);
  }

  /** A broadcast of the current list, heard by its own sender, leaves the state as it is. */
  lemma EchoIsNoop(s: Ids)
    ensures OnBus(s, Some(List(s))) == s
  {
    StableArrayIdempotent(s);
  }

  /** Storing the list and loading it again gives the same set, in sorted order. */
  lemma StoreLoadRoundTrip(s: Ids)
    requires Valid(s)
    ensures forall x :: x in Init(List(s)) <==> x in s
    ensures List(Init(List(s))) == List(s)
  {
    ListByMembers(Init(List(s)), s);
  }

  /** Applying the same incoming array twice changes nothing the second time. */
  lemma SyncIdempotent(prev: Ids, incoming: seq<string>)
    ensures Sync(Sync(prev, incoming), incoming) == Sync(prev, incoming)
  {
  }

  /** `isFav` does not trim: a padded id toggles its trimmed form. */
  lemma PaddedIdExample()
    ensures !IsFav(Toggle([], " A"), " A")
    ensures IsFav(Toggle([], " A"), "A")
  {
    assert Trim(" A") == Trim(" A"[1..]);
    assert " A"[1..] == "A";
    assert Trim("A") == "A";
  }
}
