/** What the hash table and the skip list are for: a map from byte-string keys to pointers, and what
    each call does to and answers from it. */
module KeyedMap {
  type Byte = b: int | 0 <= b < 256
  type Key = seq<Byte>
  type Value = int
  const NULL: Value := 0

  /** A call; `granted` says whether the memory a put may ask for can be had. */
  datatype Call = CallPut(key: Key, value: Value, granted: bool) | CallGet(key: Key) | CallRemove(key: Key)

  /** Whether a call is turned down for want of memory, on a structure that `needs` memory for every
      new key. */
  predicate Refused(needs: bool, m: map<Key, Value>, c: Call) {
    needs && c.CallPut? && c.key !in m && !c.granted
  }

  function MapAfter(needs: bool, m: map<Key, Value>, c: Call): map<Key, Value> {
    match c
    case CallPut(k, v, _) => if k == [] || Refused(needs, m, c) then m else m[k := v]
    case CallGet(_) => m
    case CallRemove(k) => if k == [] then m else m - {k}
  }

  function Answer(needs: bool, m: map<Key, Value>, c: Call): int {
    match c
    case CallPut(k, _, _) => if k == [] || Refused(needs, m, c) then -1 else 0
    case CallGet(k) => if k != [] && k in m then m[k] else NULL
    case CallRemove(k) => if k != [] && k in m then 0 else -1
  }

  function MapAfterAll(needs: bool, m: map<Key, Value>, calls: seq<Call>): map<Key, Value>
    decreases |calls|
  {
    if calls == [] then m
    else MapAfter(needs, MapAfterAll(needs, m, calls[..|calls| - 1]), calls[|calls| - 1])
  }

  function Answers(needs: bool, m: map<Key, Value>, calls: seq<Call>): seq<int>
    decreases |calls|
  {
    if calls == [] then []
    else
      var init := calls[..|calls| - 1];
      Answers(needs, m, init) + [Answer(needs, MapAfterAll(needs, m, init), calls[|calls| - 1])]
  }

  /** What one key was last given, read off the calls that name it. */
  datatype Stored = Absent | Present(value: Value)

  function LastGiven(needs: bool, calls: seq<Call>, k: Key): Stored
    decreases |calls|
  {
    if calls == [] then Absent
    else
      var was, c := LastGiven(needs, calls[..|calls| - 1], k), calls[|calls| - 1];
      if c.key != k then was
      else match c
        case CallPut(_, v, granted) => if was.Present? || granted || !needs then Present(v) else Absent
        case CallGet(_) => was
        case CallRemove(_) => Absent
  }

  /** After any calls on an empty map, a get answers what its key was last given, whatever happened to
      other keys. */
  lemma {:induction false} GetAnswersLastGiven(needs: bool, calls: seq<Call>, k: Key)
    requires k != []
    ensures var m, last := MapAfterAll(needs, map[], calls), LastGiven(needs, calls, k);
      && (k in m <==> last.Present?)
      && Answer(needs, m, CallGet(k)) == if last.Present? then last.value else NULL
    decreases |calls|
  {
    if calls != [] { GetAnswersLastGiven(needs, calls[..|calls| - 1], k); }
  }
}
