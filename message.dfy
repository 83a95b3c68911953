/** The text of the MissingRequiredData error: the missing keys joined with ", " by a loop
    that leaves the separator off the last key, inside a fixed sentence. */
module MissingKeyMessage {
  import opened Wrappers
  import opened Validation

  /** What the loop appends after every key except the last. */
  const Separator: string := ", "

  /** The reference meaning of the loop: Python's `", ".join(keys)`. */
  function Join(keys: seq<string>): string
  {
    if |keys| == 0 then ""
    else if |keys| == 1 then keys[0]
    else keys[0] + Separator + Join(keys[1..])
  }

  /** Joining one more key at the end puts one separator before it. */
  lemma {:induction false} JoinSnoc(keys: seq<string>, k: string)
    requires |keys| > 0
    ensures Join(keys + [k]) == Join(keys) + Separator + k
    decreases |keys|
  {
    if |keys| == 1 {
      assert keys + [k] == [keys[0], k];
      assert ([keys[0], k])[1..] == [k];
    } else {
      assert (keys + [k])[1..] == keys[1..] + [k];
      JoinSnoc(keys[1..], k);
    }
  }

  /** The loop of lines 16-24: `missing_keys_res` grows by each key, followed by ", " unless
      the key equals `last_items`, the last key of the same iteration order. With the keys
      distinct, as a set's are, the result is their ", "-join. */
  method BuildFragment(order: seq<string>) returns (fragment: string)
    requires |order| > 0
    requires Distinct(order)
    ensures fragment == Join(order)
  {
    fragment := "";
    var lastItem := order[|order| - 1];
    for i := 0 to |order|
      invariant i == 0 ==> fragment == ""
      invariant 0 < i < |order| ==> fragment == Join(order[..i]) + Separator
      invariant i == |order| ==> fragment == Join(order)
    {
      var miss := order[i];
      assert order[..i + 1] == order[..i] + [miss];
      if i > 0 {
        JoinSnoc(order[..i], miss);
      }
      if miss == lastItem {
        assert i == |order| - 1;
        assert order[..i + 1] == order;
        fragment := fragment + miss;
      } else {
        fragment := fragment + miss + Separator;
      }
    }
  }

  /** The key text holds no comma, so a separator cannot start inside it. */
  predicate NoComma(s: string)
  {
    forall i | 0 <= i < |s| :: s[i] != ','
  }

  /** The three required keys contain no comma. */
  lemma RequiredKeysHaveNoComma()
    ensures forall k | k in RequiredKeySet() :: NoComma(k)
  {
    assert NoComma("project") && NoComma("name") && NoComma("push");
  }

  /** A separator starts at position `j` of `s`. */
  predicate SeparatorAt(s: string, j: nat)
  {
    j + 1 < |s| && s[j] == ',' && s[j + 1] == ' '
  }

  /** Where the first separator starts in `s`, or `|s|` when there is none. */
  function SeparatorIndex(s: string): (i: nat)
    ensures i <= |s|
    ensures i < |s| ==> i + 2 <= |s| && s[i..i + 2] == Separator
    ensures forall j | 0 <= j < i :: !SeparatorAt(s, j)
    decreases |s|
  {
    if |s| < 2 then |s|
    else if s[0] == ',' && s[1] == ' ' then 0
    else
      var j := SeparatorIndex(s[1..]);
      assert forall m | 1 <= m < 1 + j :: SeparatorAt(s, m) == SeparatorAt(s[1..], m - 1);
      1 + j
  }

  /** `s.split(", ")`: the pieces between separators, the inverse of `Join`. */
  function Split(s: string): (parts: seq<string>)
    ensures |parts| > 0
    decreases |s|
  {
    var i := SeparatorIndex(s);
    if i == |s| then [s] else [s[..i]] + Split(s[i + 2..])
  }

  /** A comma-free key followed by anything has its first separator right after it. */
  lemma {:induction false} SeparatorAfterKey(k: string, rest: string)
    requires NoComma(k)
    requires rest == [] || (|rest| >= 2 && rest[..2] == Separator)
    ensures SeparatorIndex(k + rest) == |k|
    decreases |k|
  {
    if |k| > 0 {
      assert (k + rest)[1..] == k[1..] + rest;
      SeparatorAfterKey(k[1..], rest);
    } else {
      assert k + rest == rest;
    }
  }

  /** A comma-free key on its own is one piece. */
  lemma SplitKey(k: string)
    requires NoComma(k)
    ensures Split(k) == [k]
  {
    SeparatorAfterKey(k, []);
    assert k + [] == k;
  }

  /** A comma-free key followed by a separator is split off as the first piece. */
  lemma SplitCons(k: string, tail: string)
    requires NoComma(k)
    ensures Split(k + Separator + tail) == [k] + Split(tail)
  {
    var s := k + Separator + tail;
    assert s == k + (Separator + tail);
    assert (Separator + tail)[..2] == Separator;
    SeparatorAfterKey(k, Separator + tail);
    assert s[..|k|] == k;
    assert s[|k| + 2..] == tail;
  }

  /** Splitting the joined keys gives back exactly the keys, in their order: the fragment
      lists every key once and nothing else. */
  lemma {:induction false} SplitJoin(keys: seq<string>)
    requires |keys| > 0
    requires forall i | 0 <= i < |keys| :: NoComma(keys[i])
    ensures Split(Join(keys)) == keys
    decreases |keys|
  {
    if |keys| == 1 {
      SplitKey(keys[0]);
    } else {
      SplitCons(keys[0], Join(keys[1..]));
      SplitJoin(keys[1..]);
      assert keys == [keys[0]] + keys[1..];
    }
  }

  /** How often character `c` occurs in `s`. */
  function Count(s: string, c: char): nat
  {
    if |s| == 0 then 0 else (if s[0] == c then 1 else 0) + Count(s[1..], c)
  }

  lemma {:induction false} CountConcat(a: string, b: string, c: char)
    ensures Count(a + b, c) == Count(a, c) + Count(b, c)
    decreases |a|
  {
    if |a| == 0 {
      assert a + b == b;
    } else {
      assert (a + b)[1..] == a[1..] + b;
      CountConcat(a[1..], b, c);
    }
  }

  lemma {:induction false} NoCommaCount(s: string)
    requires NoComma(s)
    ensures Count(s, ',') == 0
    decreases |s|
  {
    if |s| > 0 {
      NoCommaCount(s[1..]);
    }
  }

  /** n comma-free keys joined give exactly n - 1 separators. */
  lemma {:induction false} JoinSeparatorCount(keys: seq<string>)
    requires |keys| > 0
    requires forall i | 0 <= i < |keys| :: NoComma(keys[i])
    ensures Count(Join(keys), ',') == |keys| - 1
    decreases |keys|
  {
    NoCommaCount(keys[0]);
    if |keys| > 1 {
      JoinSeparatorCount(keys[1..]);
      CountConcat(keys[0], Separator, ',');
      CountConcat(keys[0] + Separator, Join(keys[1..]), ',');
    }
  }

  /** The sentence around the fragment in the raised error. */
  const MessagePrefix: string := "The "
  const MessageSuffix: string := " key(s) are missing from the event data"

  /** The MissingRequiredData message of lines 26-28. */
  function MissingMessage(fragment: string): (message: string)
    ensures |message| == |MessagePrefix| + |fragment| + |MessageSuffix|
    ensures message[..|MessagePrefix|] == MessagePrefix
    ensures message[|MessagePrefix|..|MessagePrefix| + |fragment|] == fragment
    ensures message[|MessagePrefix| + |fragment|..] == MessageSuffix
  {
    MessagePrefix + fragment + MessageSuffix
  }

  /** Recover the fragment from a message, if the message has the fixed sentence around it. */
  function FragmentOf(message: string): Option<string>
  {
    if |message| >= |MessagePrefix| + |MessageSuffix|
       && message[..|MessagePrefix|] == MessagePrefix
       && message[|message| - |MessageSuffix|..] == MessageSuffix
    then Some(message[|MessagePrefix|..|message| - |MessageSuffix|])
    else None
  }

  /** The keys a message names. */
  function ListedKeys(message: string): Option<seq<string>>
  {
    match FragmentOf(message)
    case Some(fragment) => Some(Split(fragment))
    case None => None
  }

  /** The message determines its fragment. */
  lemma FragmentOfMessage(fragment: string)
    ensures FragmentOf(MissingMessage(fragment)) == Some(fragment)
  {
  }

  /** The fixed sentence contains no comma. */
  lemma SentenceHasNoComma()
    ensures Count(MessagePrefix, ',') == 0 && Count(MessageSuffix, ',') == 0
  {
    assert NoComma(MessagePrefix);
    NoCommaCount(MessagePrefix);
    assert NoComma(MessageSuffix);
    NoCommaCount(MessageSuffix);
  }

  /** A message holds the fragment's commas and no others. */
  lemma MessageCommaCount(fragment: string)
    ensures Count(MissingMessage(fragment), ',') == Count(fragment, ',')
  {
    SentenceHasNoComma();
    CountConcat(MessagePrefix, fragment, ',');
    CountConcat(MessagePrefix + fragment, MessageSuffix, ',');
  }

  /** The message built from comma-free keys names exactly those keys, in order, and holds
      one comma fewer than there are keys. */
  lemma MessageListsKeys(keys: seq<string>)
    requires |keys| > 0
    requires forall i | 0 <= i < |keys| :: NoComma(keys[i])
    ensures ListedKeys(MissingMessage(Join(keys))) == Some(keys)
    ensures Count(MissingMessage(Join(keys)), ',') == |keys| - 1
  {
    FragmentOfMessage(Join(keys));
    SplitJoin(keys);
    JoinSeparatorCount(keys);
    MessageCommaCount(Join(keys));
  }
}
