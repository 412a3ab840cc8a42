/** The JavaScript values the scraper builds, stores and compares: records,
    arrays, strings and the integers its counters and chart points hold. */
module Json {
  import opened Wrappers
  import opened Numerals

  /** `NaN` is the number `parseInt` gives for text without a leading digit;
      `Undefined` is what reading a missing property gives. */
  datatype Value =
    | Undefined
    | Null
    | Bool(b: bool)
    | Num(n: int)
    | NaN
    | Str(s: string)
    | Arr(items: seq<Value>)
    | Obj(members: seq<Member>)

  /** One own property of an object, in insertion order. */
  datatype Member = Member(key: string, val: Value)

  function Keys(ms: seq<Member>): (ks: seq<string>)
    ensures |ks| == |ms|
    ensures forall i :: 0 <= i < |ms| ==> ks[i] == ms[i].key
  {
    if |ms| == 0 then [] else [ms[0].key] + Keys(ms[1..])
  }

  /** A JavaScript object has each key at most once. */
  predicate UniqueKeys(ms: seq<Member>) {
    forall i, j :: 0 <= i < j < |ms| ==> ms[i].key != ms[j].key
  }

  /** The value of the first member named `key`. */
  function Lookup(ms: seq<Member>, key: string): (r: Option<Value>)
    ensures r.Some? <==> key in Keys(ms)
  {
    if |ms| == 0 then None
    else if ms[0].key == key then Some(ms[0].val)
    else Lookup(ms[1..], key)
  }

  lemma {:induction false} LookupAt(ms: seq<Member>, i: nat)
    requires UniqueKeys(ms) && i < |ms|
    ensures Lookup(ms, ms[i].key) == Some(ms[i].val)
  {
    if i > 0 {
      assert ms[0].key != ms[i].key;
      assert ms[1..][i - 1] == ms[i];
      LookupAt(ms[1..], i - 1);
    }
  }

  /** Reading `v[key]`: reading a property of `null` or `undefined` throws a
      `TypeError`; a missing property, or any property of a primitive (whose
      own properties the model does not hold), reads as `undefined`. */
  function Get(v: Value, key: string): (r: Result<Value>)
    ensures r.Err? <==> v.Undefined? || v.Null?
    ensures r.Err? ==> r.fault == TypeError
    ensures v.Obj? && key !in Keys(v.members) ==> r == Ok(Undefined)
    ensures !v.Obj? && r.Ok? ==> r.value == Undefined
  {
    match v
    case Undefined => Err(TypeError)
    case Null => Err(TypeError)
    case Obj(ms) => if key in Keys(ms) then Ok(Lookup(ms, key).value) else Ok(Undefined)
    case _ => Ok(Undefined)
  }

  /** Every member of an object with unique keys is read back by its key. */
  lemma GetMember(ms: seq<Member>, i: nat)
    requires UniqueKeys(ms) && i < |ms|
    ensures Get(Obj(ms), ms[i].key) == Ok(ms[i].val)
  {
    LookupAt(ms, i);
  }

  /** The members other than `key`, in their order. */
  function Remove(ms: seq<Member>, key: string): (r: seq<Member>)
    ensures |r| <= |ms|
    ensures key !in Keys(r)
  {
    if |ms| == 0 then []
    else if ms[0].key == key then Remove(ms[1..], key)
    else [ms[0]] + Remove(ms[1..], key)
  }

  /** Removing a key leaves every other key's value as it was and drops nothing else. */
  lemma {:induction false} RemoveKeepsOthers(ms: seq<Member>, key: string, other: string)
    requires other != key
    ensures Lookup(Remove(ms, key), other) == Lookup(ms, other)
  {
    if |ms| > 0 {
      RemoveKeepsOthers(ms[1..], key, other);
    }
  }

  /** Without the key there is nothing to remove. */
  lemma {:induction false} RemoveAbsent(ms: seq<Member>, key: string)
    requires key !in Keys(ms)
    ensures Remove(ms, key) == ms
  {
    if |ms| > 0 {
      assert Keys(ms) == [ms[0].key] + Keys(ms[1..]);
      RemoveAbsent(ms[1..], key);
    }
  }

  /** Removing a key twice is removing it once. */
  lemma {:induction false} RemoveIdempotent(ms: seq<Member>, key: string)
    ensures Remove(Remove(ms, key), key) == Remove(ms, key)
  {
    RemoveAbsent(Remove(ms, key), key);
  }

  /** Removing two keys in either order gives the same members. */
  lemma {:induction false} RemoveCommutes(ms: seq<Member>, a: string, b: string)
    ensures Remove(Remove(ms, a), b) == Remove(Remove(ms, b), a)
  {
    if |ms| > 0 {
      RemoveCommutes(ms[1..], a, b);
    }
  }

  /** Two member lists that differ only in the value stored under `key` agree
      once `key` is removed. */
  lemma {:induction false} RemoveSameExcept(xs: seq<Member>, ys: seq<Member>, key: string)
    requires |xs| == |ys|
    requires forall i :: 0 <= i < |xs| ==> xs[i].key == ys[i].key
    requires forall i :: 0 <= i < |xs| && xs[i].key != key ==> xs[i] == ys[i]
    ensures Remove(xs, key) == Remove(ys, key)
  {
    if |xs| > 0 {
      RemoveSameExcept(xs[1..], ys[1..], key);
    }
  }

  /** `delete v[key]`: a `TypeError` on `null` or `undefined`; on an object
      the property goes; on any other value nothing happens. */
  function Delete(v: Value, key: string): (r: Result<Value>)
    ensures r.Err? <==> v.Undefined? || v.Null?
    ensures r.Err? ==> r.fault == TypeError
    ensures r.Ok? ==> (r.value.Obj? <==> v.Obj?)
    ensures r.Ok? && r.value.Obj? ==> key !in Keys(r.value.members)
    ensures r.Ok? && !v.Obj? ==> r.value == v
  {
    match v
    case Undefined => Err(TypeError)
    case Null => Err(TypeError)
    case Obj(ms) => Ok(Obj(Remove(ms, key)))
    case _ => Ok(v)
  }

  /** Deleting a property leaves every other property readable as before. */
  lemma DeleteKeepsOthers(ms: seq<Member>, key: string, other: string)
    requires other != key
    ensures Delete(Obj(ms), key).Ok?
    ensures Get(Delete(Obj(ms), key).value, other) == Get(Obj(ms), other)
  {
    RemoveKeepsOthers(ms, key, other);
  }

  /** Assigning `key`: an existing member keeps its place and takes the new
      value; a new key is appended. */
  function Put(ms: seq<Member>, key: string, val: Value): (r: seq<Member>)
    ensures |r| == if key in Keys(ms) then |ms| else |ms| + 1
  {
    if |ms| == 0 then [Member(key, val)]
    else if ms[0].key == key then [Member(key, val)] + ms[1..]
    else [ms[0]] + Put(ms[1..], key, val)
  }

  /** After assigning a key it reads as the assigned value, and every other
      key reads as before. */
  lemma {:induction false} PutReads(ms: seq<Member>, key: string, val: Value, other: string)
    ensures Lookup(Put(ms, key, val), key) == Some(val)
    ensures other != key ==> Lookup(Put(ms, key, val), other) == Lookup(ms, other)
  {
    if |ms| > 0 && ms[0].key != key {
      PutReads(ms[1..], key, val, other);
    }
  }

  /** The keys after an assignment are the old ones, plus the new one at the end. */
  lemma {:induction false} PutKeys(ms: seq<Member>, key: string, val: Value)
    ensures Keys(Put(ms, key, val)) == if key in Keys(ms) then Keys(ms) else Keys(ms) + [key]
  {
    if |ms| > 0 {
      assert Keys(ms) == [ms[0].key] + Keys(ms[1..]);
      if ms[0].key != key {
        PutKeys(ms[1..], key, val);
        assert Keys(Put(ms, key, val)) == [ms[0].key] + Keys(Put(ms[1..], key, val));
      } else {
        assert Keys(Put(ms, key, val)) == [key] + Keys(ms[1..]);
      }
    }
  }

  /** Assigning a key the object does not have appends a member. */
  lemma {:induction false} PutNew(ms: seq<Member>, key: string, val: Value)
    requires key !in Keys(ms)
    ensures Put(ms, key, val) == ms + [Member(key, val)]
  {
    assert forall i :: 0 <= i < |ms| ==> Keys(ms)[i] != key;
    PutAppends(ms, key, val);
  }

  lemma {:induction false} PutAppends(ms: seq<Member>, key: string, val: Value)
    requires forall i :: 0 <= i < |ms| ==> ms[i].key != key
    ensures Put(ms, key, val) == ms + [Member(key, val)]
  {
    if |ms| > 0 {
      var rest := ms[1..];
      assert forall i :: 0 <= i < |rest| ==> rest[i] == ms[i + 1];
      PutAppends(rest, key, val);
      assert ms + [Member(key, val)] == [ms[0]] + (rest + [Member(key, val)]);
    }
  }

  /** Object spread `{...v}` (and `Object.assign({}, v)`): the own enumerable
      properties of `v` in a fresh object: an object's members, an array's or
      string's elements under their indices, and nothing for other values. */
  function Spread(v: Value): (r: Value)
    ensures r.Obj?
    ensures v.Obj? ==> r == v
    ensures v.Arr? ==> |r.members| == |v.items|
    ensures v.Str? ==> |r.members| == |v.s|
    ensures !(v.Obj? || v.Arr? || v.Str?) ==> r.members == []
  {
    match v
    case Obj(_) => v
    case Arr(items) => Obj(seq(|items|, i requires 0 <= i < |items| => Member(Decimal(i), items[i])))
    case Str(s) => Obj(seq(|s|, i requires 0 <= i < |s| => Member(Decimal(i), Str([s[i]]))))
    case _ => Obj([])
  }

  /** The indices an array spreads under are distinct keys, each reading
      back its element. */
  lemma SpreadArray(items: seq<Value>, i: nat)
    requires i < |items|
    ensures UniqueKeys(Spread(Arr(items)).members)
    ensures Get(Spread(Arr(items)), Decimal(i)) == Ok(items[i])
  {
    var ms := Spread(Arr(items)).members;
    forall a, b | 0 <= a < b < |ms|
      ensures ms[a].key != ms[b].key
    {
      assert ValueOf(ms[a].key, 10) == a && ValueOf(ms[b].key, 10) == b;
    }
    GetMember(ms, i);
  }

  /** What `JSON.parse(JSON.stringify(v))` gives back: `NaN` and `undefined`
      become `null` as array elements, members holding `undefined` vanish,
      and every other value is kept. */
  function Canon(v: Value): (r: Value)
    ensures r != Undefined && r != NaN
  {
    match v
    case Undefined => Null
    case NaN => Null
    case Arr(items) => Arr(CanonItems(items))
    case Obj(ms) => Obj(CanonMembers(ms))
    case _ => v
  }

  function CanonItems(items: seq<Value>): (r: seq<Value>)
    ensures |r| == |items|
  {
    if |items| == 0 then [] else [Canon(items[0])] + CanonItems(items[1..])
  }

  function CanonMembers(ms: seq<Member>): (r: seq<Member>)
    ensures |r| <= |ms|
  {
    if |ms| == 0 then []
    else if ms[0].val.Undefined? then CanonMembers(ms[1..])
    else [Member(ms[0].key, Canon(ms[0].val))] + CanonMembers(ms[1..])
  }

  /** A value JSON can hold as it is. */
  predicate Canonical(v: Value) {
    match v
    case Undefined => false
    case NaN => false
    case Arr(items) => CanonicalItems(items)
    case Obj(ms) => CanonicalMembers(ms)
    case _ => true
  }

  predicate CanonicalItems(items: seq<Value>) {
    |items| == 0 || (Canonical(items[0]) && CanonicalItems(items[1..]))
  }

  predicate CanonicalMembers(ms: seq<Member>) {
    |ms| == 0 || (Canonical(ms[0].val) && CanonicalMembers(ms[1..]))
  }

  /** The JSON round trip always yields a value JSON holds as it is... */
  lemma {:induction false} CanonIsCanonical(v: Value)
    ensures Canonical(Canon(v))
  {
    match v
    case Arr(items) => CanonItemsCanonical(items);
    case Obj(ms) => CanonMembersCanonical(ms);
    case _ =>
  }

  lemma {:induction false} CanonItemsCanonical(items: seq<Value>)
    ensures CanonicalItems(CanonItems(items))
  {
    if |items| > 0 {
      CanonIsCanonical(items[0]);
      CanonItemsCanonical(items[1..]);
      assert CanonItems(items)[1..] == CanonItems(items[1..]);
    }
  }

  lemma {:induction false} CanonMembersCanonical(ms: seq<Member>)
    ensures CanonicalMembers(CanonMembers(ms))
  {
    if |ms| > 0 {
      CanonMembersCanonical(ms[1..]);
      if !ms[0].val.Undefined? {
        CanonIsCanonical(ms[0].val);
        assert CanonMembers(ms)[1..] == CanonMembers(ms[1..]);
      }
    }
  }

  /** ... and leaves such a value untouched. */
  lemma {:induction false} CanonOfCanonical(v: Value)
    requires Canonical(v)
    ensures Canon(v) == v
  {
    match v
    case Arr(items) => CanonItemsOfCanonical(items);
    case Obj(ms) => CanonMembersOfCanonical(ms);
    case _ =>
  }

  lemma {:induction false} CanonItemsOfCanonical(items: seq<Value>)
    requires CanonicalItems(items)
    ensures CanonItems(items) == items
  {
    if |items| > 0 {
      CanonOfCanonical(items[0]);
      CanonItemsOfCanonical(items[1..]);
      assert items == [items[0]] + items[1..];
    }
  }

  lemma {:induction false} CanonMembersOfCanonical(ms: seq<Member>)
    requires CanonicalMembers(ms)
    ensures CanonMembers(ms) == ms
  {
    if |ms| > 0 {
      assert !ms[0].val.Undefined?;
      CanonOfCanonical(ms[0].val);
      CanonMembersOfCanonical(ms[1..]);
      assert ms == [Member(ms[0].key, ms[0].val)] + ms[1..];
    }
  }

  /** A second round trip changes nothing. */
  lemma CanonIdempotent(v: Value)
    ensures Canon(Canon(v)) == Canon(v)
  {
    CanonIsCanonical(v);
    CanonOfCanonical(Canon(v));
  }

  /** Deleting a property before or after the round trip gives the same value. */
  lemma {:induction false} CanonRemove(ms: seq<Member>, key: string)
    ensures CanonMembers(Remove(ms, key)) == Remove(CanonMembers(ms), key)
  {
    if |ms| > 0 {
      CanonRemove(ms[1..], key);
    }
  }

  /** Deleting a property keeps a value JSON can hold. */
  lemma {:induction false} CanonicalRemove(ms: seq<Member>, key: string)
    requires CanonicalMembers(ms)
    ensures CanonicalMembers(Remove(ms, key))
  {
    if |ms| > 0 {
      CanonicalRemove(ms[1..], key);
      var rest := Remove(ms[1..], key);
      if ms[0].key != key {
        assert ([ms[0]] + rest)[1..] == rest;
      }
    }
  }

  lemma {:induction false} DeleteCanon(ms: seq<Member>, key: string)
    ensures Delete(Canon(Obj(ms)), key) == Ok(Canon(Obj(Remove(ms, key))))
  {
    CanonRemove(ms, key);
  }
}
