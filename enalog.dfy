/** push_event: validate the event's required keys, raising MissingRequiredData before any
    request is made, then send it and map the request's outcome to the returned value. */
module EnaLog {
  import opened Wrappers
  import opened Validation
  import opened MissingKeyMessage
  import opened Outcomes

  /** The exception raised when required keys are absent, with its message. */
  datatype MissingRequiredData = MissingRequiredData(message: string)

  /** `raise MissingRequiredData(f"The {missing_keys_res} key(s) ...")`: the error carries the
      sentence around the fragment, and the fragment can be read back from it. */
  function RaiseMissing(fragment: string): (error: MissingRequiredData)
    ensures FragmentOf(error.message) == Some(fragment)
  {
    FragmentOfMessage(fragment);
    MissingRequiredData(MissingMessage(fragment))
  }

  /** How a call of push_event ends: it raises MissingRequiredData, or it returns a result
      dictionary or None. */
  datatype PushResult = RaisedMissing(error: MissingRequiredData) | Returned(value: Option<ResultDict>)

  /** push_event(api_token, event). `outcome` stands for what the POST would produce;
      `posted` says whether the POST is issued at all. The ghost `order` is the iteration order
      of the missing-key set that the message was built in. */
  method PushEvent(event: Event, outcome: PostOutcome)
    returns (result: PushResult, posted: bool, ghost order: seq<string>)
    ensures posted <==> HasAllRequired(event)
    ensures result.RaisedMissing? <==> !posted
    ensures result.RaisedMissing? <==> MissingKeys(event) != {}
    ensures result.RaisedMissing? ==>
              IsEnumeration(order, MissingKeys(event))
              && result.error == RaiseMissing(Join(order))
    ensures result.Returned? ==> result.value == MapOutcome(outcome)
  {
    IncompleteIffMissing(event);
    if !HasAllRequired(event) {
      var missingKeys := MissingKeys(event);
      var keys := IterationOrder(missingKeys);
      var fragment := BuildFragment(keys);
      order := keys;
      posted := false;
      result := RaisedMissing(RaiseMissing(fragment));
      return;
    }
    order := [];
    posted := true;
    result := Returned(MapOutcome(outcome));
  }

  /** Whatever order the missing set is iterated in, the message names exactly the missing
      keys, each once, separated by n - 1 commas for n missing keys. */
  lemma {:induction false} MessageNamesMissingKeys(event: Event, order: seq<string>)
    requires MissingKeys(event) != {}
    requires IsEnumeration(order, MissingKeys(event))
    ensures ListedKeys(MissingMessage(Join(order))) == Some(order)
    ensures Elements(order) == MissingKeys(event)
    ensures |order| == |MissingKeys(event)|
    ensures Count(MissingMessage(Join(order)), ',') == |MissingKeys(event)| - 1
  {
    EnumerationLength(order, MissingKeys(event));
    RequiredKeysHaveNoComma();
    forall i | 0 <= i < |order| ensures NoComma(order[i]) {
      assert order[i] in Elements(order);
    }
    MessageListsKeys(order);
  }

  /** Two iteration orders of the same missing set give messages that name the same keys,
      as many of each: callers may rely on the set of listed keys, not on their order. */
  lemma MessageOrderIndependent(event: Event, o1: seq<string>, o2: seq<string>)
    requires MissingKeys(event) != {}
    requires IsEnumeration(o1, MissingKeys(event)) && IsEnumeration(o2, MissingKeys(event))
    ensures ListedKeys(MissingMessage(Join(o1))).Some?
    ensures ListedKeys(MissingMessage(Join(o2))).Some?
    ensures Elements(ListedKeys(MissingMessage(Join(o1))).value)
            == Elements(ListedKeys(MissingMessage(Join(o2))).value)
    ensures |ListedKeys(MissingMessage(Join(o1))).value|
            == |ListedKeys(MissingMessage(Join(o2))).value|
    ensures multiset(ListedKeys(MissingMessage(Join(o1))).value)
            == multiset(ListedKeys(MissingMessage(Join(o2))).value)
  {
    MessageNamesMissingKeys(event, o1);
    MessageNamesMissingKeys(event, o2);
    DistinctMultiset(o1);
    DistinctMultiset(o2);
  }

  /** The only iteration order of a one-element set is that element. */
  lemma SingletonEnumeration(order: seq<string>, k: string)
    requires IsEnumeration(order, {k})
    ensures order == [k]
  {
    EnumerationLength(order, {k});
    assert order[0] in Elements(order);
  }

  /** An event with `name` and `push` but no `project` is refused, and the message is
      "The project key(s) are missing from the event data". */
  lemma MissingProjectScenario(order: seq<string>)
    requires IsEnumeration(order, MissingKeys(map["name" := JString("enalog"), "push" := JBool(true)]))
    ensures MissingKeys(map["name" := JString("enalog"), "push" := JBool(true)]) == {"project"}
    ensures Join(order) == "project"
  {
    var event := map["name" := JString("enalog"), "push" := JBool(true)];
    assert MissingKeys(event) == {"project"};
    SingletonEnumeration(order, "project");
  }

  /** The only iteration orders of a two-element set are its two orders. */
  lemma PairEnumeration(order: seq<string>, a: string, b: string)
    requires a != b
    requires IsEnumeration(order, {a, b})
    ensures order == [a, b] || order == [b, a]
  {
    EnumerationLength(order, {a, b});
    assert order[0] in Elements(order) && order[1] in Elements(order);
  }

  /** An event with only `project` is refused, and the message's fragment names `name` and
      `push`, in one order or the other. */
  lemma MissingNameAndPushScenario(order: seq<string>)
    requires IsEnumeration(order, MissingKeys(map["project" := JString("enalog")]))
    ensures MissingKeys(map["project" := JString("enalog")]) == {"name", "push"}
    ensures Join(order) == "name, push" || Join(order) == "push, name"
  {
    var event := map["project" := JString("enalog")];
    assert MissingKeys(event) == {"name", "push"};
    PairEnumeration(order, "name", "push");
    if order == ["name", "push"] {
      assert Join(order) == "name" + Separator + "push";
    } else {
      assert Join(order) == "push" + Separator + "name";
    }
  }

  /** An event with all three keys passes whatever else it holds, so push_event posts it; a
      200 reply then gives the success dictionary. */
  lemma CompleteEventScenario(extra: map<string, Json>)
    ensures HasAllRequired(extra + map["project" := JString("12345"), "name" := JString("enalog"), "push" := JBool(true)])
    ensures MapOutcome(Responded(HttpResponse(200, ""))) == Some(Success)
  {
  }
}
