/** The required-key check of push_event: which of the fixed keys `project`, `name` and `push`
    an event lacks, and the order in which a Python set of them is iterated. */
module Validation {

  /** The JSON-serialisable values an event may carry. They are never inspected by the
      validation, which only looks at the keys. */
  datatype Json =
    | JNull
    | JBool(b: bool)
    | JNumber(n: int)
    | JString(s: string)
    | JList(items: seq<Json>)
    | JObject(fields: map<string, Json>)

  /** An event is a dictionary from string keys to JSON values. */
  type Event = map<string, Json>

  /** The keys every event must carry, in the order of the source's tuple. */
  const RequiredKeys: seq<string> := ["project", "name", "push"]

  /** The same keys as a set, as `set(required_keys)` builds it. */
  function RequiredKeySet(): (keys: set<string>)
    ensures |keys| == 3
    ensures forall k :: k in keys <==> k == "project" || k == "name" || k == "push"
  {
    var keys := set k | k in RequiredKeys;
    assert keys == {"project", "name", "push"};
    keys
  }

  /** `all(key in event for key in required_keys)`. */
  predicate HasAllRequired(event: Event)
    ensures HasAllRequired(event) <==> "project" in event && "name" in event && "push" in event
  {
    assert RequiredKeys[0] == "project" && RequiredKeys[1] == "name" && RequiredKeys[2] == "push";
    forall i | 0 <= i < |RequiredKeys| :: RequiredKeys[i] in event
  }

  /** `set(required_keys) - event.keys()`: the required keys the event lacks. */
  function MissingKeys(event: Event): (missing: set<string>)
    ensures missing <= RequiredKeySet()
    ensures missing !! event.Keys
  {
    RequiredKeySet() - event.Keys
  }

  /** A required key is missing exactly when the event does not have it. */
  lemma MissingKeysExactly(event: Event, k: string)
    ensures k in MissingKeys(event) <==> k in RequiredKeySet() && k !in event
  {
  }

  /** Validation fails (the `all(...)` test is false) exactly when the missing set is not
      empty, so the test on line 13 and the set built on line 14 agree. */
  lemma {:induction false} IncompleteIffMissing(event: Event)
    ensures !HasAllRequired(event) <==> MissingKeys(event) != {}
  {
    if !HasAllRequired(event) {
      var i :| 0 <= i < |RequiredKeys| && RequiredKeys[i] !in event;
      assert RequiredKeys[i] in MissingKeys(event);
    } else {
      forall k | k in RequiredKeySet() ensures k in event {
        var i :| 0 <= i < |RequiredKeys| && RequiredKeys[i] == k;
      }
      assert MissingKeys(event) == {};
    }
  }

  /** Keys other than the three required ones never change the outcome of the validation:
      two events that agree on which required keys they hold pass or fail alike and lack the
      same keys. */
  lemma ExtraKeysIrrelevant(e1: Event, e2: Event)
    requires forall i | 0 <= i < |RequiredKeys| :: RequiredKeys[i] in e1 <==> RequiredKeys[i] in e2
    ensures HasAllRequired(e1) <==> HasAllRequired(e2)
    ensures MissingKeys(e1) == MissingKeys(e2)
  {
    forall k | k in RequiredKeySet() ensures k in e1 <==> k in e2 {
      var i :| 0 <= i < |RequiredKeys| && RequiredKeys[i] == k;
    }
  }

  /** Adding any further key (not a required one) to an event leaves the validation as it was. */
  lemma ExtraKeyIrrelevant(event: Event, extra: string, v: Json)
    requires extra !in RequiredKeySet()
    ensures HasAllRequired(event[extra := v]) <==> HasAllRequired(event)
    ensures MissingKeys(event[extra := v]) == MissingKeys(event)
  {
    ExtraKeysIrrelevant(event[extra := v], event);
  }

  /** The elements of a sequence, as a set. */
  function Elements(s: seq<string>): set<string>
  {
    set i | 0 <= i < |s| :: s[i]
  }

  /** No element occurs twice. */
  predicate Distinct(s: seq<string>)
  {
    forall i, j | 0 <= i < j < |s| :: s[i] != s[j]
  }

  /** `order` is one possible iteration order of the set `s`: each element once. */
  predicate IsEnumeration(order: seq<string>, s: set<string>)
  {
    Distinct(order) && Elements(order) == s
  }

  /** An enumeration has as many entries as the set has elements. */
  lemma {:induction false} EnumerationLength(order: seq<string>, s: set<string>)
    requires IsEnumeration(order, s)
    ensures |order| == |s|
    decreases |order|
  {
    if |order| > 0 {
      var last := order[|order| - 1];
      var front := order[..|order| - 1];
      assert Elements(front) == s - {last} by {
        forall x | x in s - {last} ensures x in Elements(front) {
          var i :| 0 <= i < |order| && order[i] == x;
          assert i != |order| - 1;
          assert front[i] == x;
        }
      }
      EnumerationLength(front, s - {last});
    } else {
      assert Elements(order) == {};
    }
  }

  /** A sequence without repetitions holds each of its elements once. */
  lemma {:induction false} DistinctMultiset(s: seq<string>)
    requires Distinct(s)
    ensures multiset(s) == multiset(Elements(s))
    decreases |s|
  {
    if |s| > 0 {
      var front, last := s[..|s| - 1], s[|s| - 1];
      assert s == front + [last];
      assert Elements(s) == Elements(front) + {last} by {
        forall x | x in Elements(s) ensures x in Elements(front) + {last} {
          var i :| 0 <= i < |s| && s[i] == x;
          if i < |s| - 1 { assert front[i] == x; }
        }
      }
      assert last !in Elements(front);
      DistinctMultiset(front);
    } else {
      assert Elements(s) == {};
    }
  }

  /** Iterating a Python set visits its elements in an order the language leaves open. This
      method chooses one such order.  `list(missing_keys)` and `for miss in missing_keys` both
      iterate the same unchanged set, so the source sees this one order twice. */
  method IterationOrder(s: set<string>) returns (order: seq<string>)
    ensures IsEnumeration(order, s)
    ensures |order| == |s|
  {
    order := [];
    var rest := s;
    while rest != {}
      invariant Distinct(order)
      invariant Elements(order) !! rest
      invariant Elements(order) + rest == s
      decreases rest
    {
      var x :| x in rest;
      assert Elements(order + [x]) == Elements(order) + {x} by {
        assert forall i | 0 <= i < |order| :: (order + [x])[i] == order[i];
        assert (order + [x])[|order|] == x;
      }
      order := order + [x];
      rest := rest - {x};
    }
    EnumerationLength(order, s);
  }
}
