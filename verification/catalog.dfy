/** Train records, `Train-<N>` identifiers, identifier allocation and route search. */
module Catalog {
  import opened Wrappers
  import opened Text

  /** A train record; timings and price are stored and copied, never interpreted. */
  datatype Train = Train(route: (string, string), availability: int, timings: string, price: string)

  const TrainPrefix: string := "Train-"

  /** The key under which the n-th allocated train is stored. */
  function TrainKey(n: nat): (key: string)
    ensures IsTrainKey(key)
    ensures var rest := key[|TrainPrefix|..]; |rest| > 0 && AllDigits(rest) && '-' !in rest
  {
    var digits := NatToString(n);
    assert (TrainPrefix + digits)[|TrainPrefix|..] == digits;
    TrainPrefix + digits
  }

  predicate IsTrainKey(key: string) {
    |TrainPrefix| <= |key| && key[..|TrainPrefix|] == TrainPrefix
  }

  /** `key.split('-')[1]` for a key that starts with "Train-": the text after the first '-'
      up to the next '-' or the end. */
  function IdField(key: string): (field: string)
    requires IsTrainKey(key)
    ensures '-' !in field
    ensures field <= key[|TrainPrefix|..]
    ensures |TrainPrefix| + |field| < |key| ==> key[|TrainPrefix| + |field|] == '-'
  {
    var rest := key[|TrainPrefix|..];
    rest[..FirstIndex(rest, '-', 0)]
  }

  /** `int(key.split('-')[1])`; None where `int` would raise. */
  function TrainNumber(key: string): (r: Option<nat>)
    requires IsTrainKey(key)
    ensures r.None? <==> |IdField(key)| == 0 || !AllDigits(IdField(key))
  {
    ParseNat(IdField(key))
  }

  /** Reading the number back out of an allocated key gives the number it was built from. */
  lemma TrainNumberOfTrainKey(n: nat)
    ensures IsTrainKey(TrainKey(n))
    ensures TrainNumber(TrainKey(n)) == Some(n)
  {
    var key := TrainKey(n);
    assert key[..|TrainPrefix|] == TrainPrefix;
    var rest := key[|TrainPrefix|..];
    assert rest == NatToString(n);
    assert forall k :: 0 <= k < |rest| ==> rest[k] != '-';
    assert rest[..FirstIndex(rest, '-', 0)] == rest;
    ParseNatOfNatToString(n);
  }

  /** Distinct numbers give distinct keys. */
  lemma TrainKeyInjective(m: nat, n: nat)
    requires TrainKey(m) == TrainKey(n)
    ensures m == n
  {
    TrainNumberOfTrainKey(m);
    TrainNumberOfTrainKey(n);
  }

  /** What the generator in `compute_next_train_id` yields, folded by `max`. */
  datatype IdScan =
    | Malformed        // some "Train-" key has a field `int` cannot parse: ValueError
    | NoTrainKeys      // no key starts with "Train-": `max` of an empty sequence raises
    | Highest(n: nat)  // the largest number over the "Train-" keys

  function ScanTrainNumbers(keys: seq<string>): (r: IdScan)
    ensures r.Malformed? <==>
      exists i :: 0 <= i < |keys| && IsTrainKey(keys[i]) && TrainNumber(keys[i]).None?
    ensures r.NoTrainKeys? <==> forall i :: 0 <= i < |keys| ==> !IsTrainKey(keys[i])
    ensures r.Highest? ==> forall i :: 0 <= i < |keys| && IsTrainKey(keys[i]) ==>
      TrainNumber(keys[i]).Some? && TrainNumber(keys[i]).value <= r.n
    ensures r.Highest? ==>
      exists i :: 0 <= i < |keys| && IsTrainKey(keys[i]) && TrainNumber(keys[i]) == Some(r.n)
  {
    if |keys| == 0 then NoTrainKeys
    else
      var rest := ScanTrainNumbers(keys[1..]);
      assert forall i :: 1 <= i < |keys| ==> keys[i] == keys[1..][i - 1];
      if !IsTrainKey(keys[0]) then rest
      else match TrainNumber(keys[0])
        case None => Malformed
        case Some(n) =>
          match rest
          case Malformed => Malformed
          case NoTrainKeys => Highest(n)
          case Highest(m) => Highest(if n < m then m else n)
  }

  /** `compute_next_train_id` over the catalog's keys; None where the source raises. */
  function ComputeNextTrainId(keys: seq<string>): (r: Option<nat>)
    ensures |keys| == 0 ==> r == Some(1)
    ensures r.None? <==>
      |keys| > 0 &&
      ((exists i :: 0 <= i < |keys| && IsTrainKey(keys[i]) && TrainNumber(keys[i]).None?) ||
       (forall i :: 0 <= i < |keys| ==> !IsTrainKey(keys[i])))
    ensures r.Some? ==> forall i :: 0 <= i < |keys| && IsTrainKey(keys[i]) ==>
      TrainNumber(keys[i]).Some? && TrainNumber(keys[i]).value < r.value
    ensures r.Some? && |keys| > 0 ==>
      exists i :: 0 <= i < |keys| && IsTrainKey(keys[i]) && TrainNumber(keys[i]) == Some(r.value - 1)
  {
    if |keys| == 0 then Some(1)
    else match ScanTrainNumbers(keys)
      case Malformed => None
      case NoTrainKeys => None
      case Highest(n) => Some(n + 1)
  }

  predicate Distinct(order: seq<string>) {
    forall i, j :: 0 <= i < j < |order| ==> order[i] != order[j]
  }

  /** The catalog invariant: `order` lists the keys of `trains` once each in insertion order,
      every key is `Train-<N>` with 1 <= N below the next id, and the last allocated key is present. */
  ghost predicate CatalogInvariant(trains: map<string, Train>, order: seq<string>, next: nat) {
    (forall k :: k in trains <==> k in order) && Distinct(order) && next >= 1 &&
    (forall k :: k in trains ==> IsTrainKey(k)) &&
    (forall k {:trigger TrainNumber(k)} :: k in trains && IsTrainKey(k) ==>
       TrainNumber(k).Some? && 1 <= TrainNumber(k).value < next) &&
    (next > 1 ==> TrainKey(next - 1) in trains)
  }

  /** Over keys that all carry numbers below `next`, one of them `next - 1`, the recomputed
      next id is `next`. */
  lemma NextIdOfNumberedKeys(keys: seq<string>, next: nat, last: nat)
    requires forall i :: 0 <= i < |keys| ==>
      IsTrainKey(keys[i]) && TrainNumber(keys[i]).Some? && TrainNumber(keys[i]).value < next
    requires last < |keys| && TrainNumber(keys[last]) == Some(next - 1)
    ensures ComputeNextTrainId(keys) == Some(next)
  {
    var r := ComputeNextTrainId(keys);
    var i :| 0 <= i < |keys| && IsTrainKey(keys[i]) && TrainNumber(keys[i]) == Some(r.value - 1);
  }

  /** Recomputing the next id from the keys (as a restart does) gives the tracked next id. */
  lemma NextIdResumes(trains: map<string, Train>, order: seq<string>, next: nat)
    requires CatalogInvariant(trains, order, next)
    ensures ComputeNextTrainId(order) == Some(next)
  {
    if |order| == 0 {
      assert trains == map[];
    } else {
      assert order[0] in trains && IsTrainKey(order[0]);
      assert TrainNumber(order[0]).Some?;
      assert next > 1;
      TrainNumberOfTrainKey(next - 1);
      var last :| 0 <= last < |order| && order[last] == TrainKey(next - 1);
      forall i | 0 <= i < |order|
        ensures IsTrainKey(order[i]) && TrainNumber(order[i]).Some? && TrainNumber(order[i]).value < next
      {
        assert order[i] in trains;
      }
      NextIdOfNumberedKeys(order, next, last);
    }
  }

  /** Adding a train under the next id inserts a fresh key and keeps the invariant. */
  lemma AddKeepsCatalogInvariant(trains: map<string, Train>, order: seq<string>, next: nat, t: Train)
    requires CatalogInvariant(trains, order, next)
    ensures TrainKey(next) !in trains
    ensures CatalogInvariant(trains[TrainKey(next) := t], order + [TrainKey(next)], next + 1)
  {
    TrainNumberOfTrainKey(next);
    var trains', order' := trains[TrainKey(next) := t], order + [TrainKey(next)];
    forall k | k in trains'
      ensures IsTrainKey(k) && TrainNumber(k).Some? && 1 <= TrainNumber(k).value < next + 1
    {
    }
    forall i, j | 0 <= i < j < |order'| ensures order'[i] != order'[j] {
      if j == |order| { assert order'[i] in trains; }
    }
  }

  /** The invariant speaks only of the keys, so updating a record in place keeps it. */
  lemma CatalogInvariantOfSameKeys(trains: map<string, Train>, trains': map<string, Train>,
                                   order: seq<string>, next: nat)
    requires CatalogInvariant(trains, order, next) && trains'.Keys == trains.Keys
    ensures CatalogInvariant(trains', order, next)
  {
    assert forall k :: k in trains' <==> k in trains;
  }

  /** The train under `id` exists and runs `source` to `destination`. */
  predicate OnRoute(trains: map<string, Train>, id: string, source: string, destination: string) {
    id in trains && trains[id].route == (source, destination)
  }

  /** The `(id, record)` pairs of `order` whose route is exactly `(source, destination)`,
      in the order of `order`. */
  function SearchSpec(trains: map<string, Train>, order: seq<string>, source: string, destination: string)
    : (hits: seq<(string, Train)>)
    ensures |hits| <= |order|
    ensures forall p :: 0 <= p < |hits| ==>
      hits[p].0 in order && OnRoute(trains, hits[p].0, source, destination) && hits[p].1 == trains[hits[p].0]
  {
    if |order| == 0 then []
    else
      var id := order[|order| - 1];
      SearchSpec(trains, order[..|order| - 1], source, destination) +
      (if OnRoute(trains, id, source, destination) then [(id, trains[id])] else [])
  }

  /** The hits for a prefix of the catalog are a prefix of the hits for the whole catalog. */
  lemma {:induction false} SearchPrefix(trains: map<string, Train>, order: seq<string>, n: nat,
                                        source: string, destination: string)
    requires n <= |order|
    ensures var pre, all := SearchSpec(trains, order[..n], source, destination),
                            SearchSpec(trains, order, source, destination);
            |pre| <= |all| && all[..|pre|] == pre
  {
    if n < |order| {
      var init := order[..|order| - 1];
      assert init[..n] == order[..n];
      SearchPrefix(trains, init, n, source, destination);
    } else {
      assert order[..n] == order;
    }
  }

  /** Every catalog entry on the route shows up, at the position given by the number of
      matching entries before it: the hits keep catalog order and miss nothing. */
  lemma SearchFindsEveryMatch(trains: map<string, Train>, order: seq<string>, i: nat,
                              source: string, destination: string)
    requires i < |order| && OnRoute(trains, order[i], source, destination)
    ensures var p, all := |SearchSpec(trains, order[..i], source, destination)|,
                          SearchSpec(trains, order, source, destination);
            p < |all| && all[p] == (order[i], trains[order[i]])
  {
    SearchPrefix(trains, order, i + 1, source, destination);
    assert order[..i + 1][..i] == order[..i];
  }

  /** Over a catalog satisfying the invariant, the search finds nothing exactly when no train
      has the route. */
  lemma SearchEmptyIffNoRoute(trains: map<string, Train>, order: seq<string>, next: nat,
                              source: string, destination: string)
    requires CatalogInvariant(trains, order, next)
    ensures |SearchSpec(trains, order, source, destination)| == 0 <==>
      forall k :: k in trains ==> trains[k].route != (source, destination)
  {
    if k :| k in trains && trains[k].route == (source, destination) {
      var i :| 0 <= i < |order| && order[i] == k;
      SearchFindsEveryMatch(trains, order, i, source, destination);
    } else {
      var hits := SearchSpec(trains, order, source, destination);
      assert |hits| == 0 || OnRoute(trains, hits[0].0, source, destination);
    }
  }

  /** Positions of the catalog entries on the route. */
  ghost function RoutePositions(trains: map<string, Train>, order: seq<string>, source: string, destination: string): set<int> {
    set i | 0 <= i < |order| && OnRoute(trains, order[i], source, destination)
  }

  /** The search has exactly one hit per catalog entry on the route. */
  lemma {:induction false} SearchCount(trains: map<string, Train>, order: seq<string>, source: string, destination: string)
    ensures |SearchSpec(trains, order, source, destination)| == |RoutePositions(trains, order, source, destination)|
  {
    if |order| == 0 {
      assert RoutePositions(trains, order, source, destination) == {};
    } else {
      var n := |order| - 1;
      var init := order[..n];
      SearchCount(trains, init, source, destination);
      var before := RoutePositions(trains, init, source, destination);
      var all := RoutePositions(trains, order, source, destination);
      if OnRoute(trains, order[n], source, destination) {
        assert all == before + {n};
        assert n !in before;
      } else {
        assert all == before;
      }
    }
  }
}
