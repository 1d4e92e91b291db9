/**
 * The `Arrays` helper class over PHP ordered arrays. An ordered array is a
 * sequence of key/value entries in insertion order; a PHP array never holds
 * two entries with the same key.
 */
module Arrays {
  import opened Sequences
  import Strings

  /** A PHP array key: an integer key and a string key are never the same key. */
  datatype Key = IntKey(i: int) | StrKey(s: string)

  /** The PHP values the helpers handle; floats and objects are not modelled. */
  datatype Value =
    | Null
    | Bool(b: bool)
    | Int(i: int)
    | Str(s: string)
    | Arr(entries: seq<(Key, Value)>)

  type Entry = (Key, Value)

  /** No two entries share a key, as in every PHP array. */
  ghost predicate DistinctKeys(a: seq<Entry>)
  {
    forall i, j :: 0 <= i < j < |a| ==> a[i].0 != a[j].0
  }

  /**
   * A key as PHP stores it: a string that spells a canonical decimal integer
   * is always cast to that integer, so no string key spells one.
   */
  predicate ValidKey(k: Key)
  {
    k.StrKey? ==> !CanonicalDecimal(k.s)
  }

  /** The keys of a PHP array: every key stored as PHP stores it, and no two the same. */
  ghost predicate ValidArray(a: seq<Entry>)
  {
    (forall i :: 0 <= i < |a| ==> ValidKey(a[i].0)) && DistinctKeys(a)
  }

  /** PHP's `empty()`: null, false, 0, "", "0" and the empty array are falsy. */
  predicate Falsy(v: Value)
  {
    match v
    case Null => true
    case Bool(b) => !b
    case Int(i) => i == 0
    case Str(s) => s == "" || s == "0"
    case Arr(es) => |es| == 0
  }

  // ---------------------------------------------------------------------------
  // clear
  // ---------------------------------------------------------------------------

  /**
   * Whether `array_filter` keeps a value: without a callback, every value that
   * is not falsy; with one, every value the callback accepts.
   */
  predicate Kept(callback: Option<Value -> bool>, v: Value)
  {
    match callback
    case None => !Falsy(v)
    case Some(f) => f(v)
  }

  /** `array_filter($dirty_array, $whats_empty)`: the kept entries, keys and order untouched. */
  function Survivors(dirty: seq<Entry>, callback: Option<Value -> bool>): (r: seq<Entry>)
    ensures forall e {:trigger e in r} :: e in r <==> e in dirty && Kept(callback, e.1)
  {
    Filter(dirty, (e: Entry) => Kept(callback, e.1))
  }

  /** How many entries of `a` have an integer key. */
  function IntKeyCount(a: seq<Entry>): (n: nat)
    ensures n <= |a|
  {
    if |a| == 0 then 0 else (if a[0].0.IntKey? then 1 else 0) + IntKeyCount(a[1..])
  }

  /**
   * `array_merge` of one array, numbering integer keys from `next`: every
   * integer-keyed entry gets the next number in order, every string-keyed
   * entry keeps its key, and all values stay where they are.
   */
  function Renumber(a: seq<Entry>, next: nat): (r: seq<Entry>)
    ensures |r| == |a|
  {
    if |a| == 0 then []
    else
      var rest := Renumber(a[1..], if a[0].0.IntKey? then next + 1 else next);
      if a[0].0.IntKey? then [(IntKey(next), a[0].1)] + rest else [a[0]] + rest
  }

  /**
   * What `array_merge` does to each entry: its value stays, a string key
   * stays, and an integer key becomes `next` plus the number of integer keys
   * before it.
   */
  lemma {:induction false} RenumberEntries(a: seq<Entry>, next: nat)
    ensures forall i :: 0 <= i < |a| ==>
      && Renumber(a, next)[i].1 == a[i].1
      && (a[i].0.StrKey? ==> Renumber(a, next)[i].0 == a[i].0)
      && (a[i].0.IntKey? ==> Renumber(a, next)[i].0 == IntKey(next + IntKeyCount(a[..i])))
  {
    if |a| > 0 {
      var next' := if a[0].0.IntKey? then next + 1 else next;
      RenumberEntries(a[1..], next');
      forall i | 0 < i < |a|
        ensures IntKeyCount(a[..i]) == (if a[0].0.IntKey? then 1 else 0) + IntKeyCount(a[1..][..i - 1])
      {
        assert a[..i][0] == a[0];
        assert a[..i][1..] == a[1..][..i - 1];
      }
      forall i | 0 < i < |a|
        ensures Renumber(a, next)[i] == Renumber(a[1..], next')[i - 1]
      {
      }
    }
  }

  /**
   * `Arrays::clear`: filters with `array_filter` and, when `reindex` is set,
   * renumbers with `array_merge`. The values are exactly the survivors' values
   * in order; without reindexing each survivor keeps its key, with it string
   * keys are kept and integer keys become 0, 1, 2, ... in order.
   */
  function Clear(dirty: seq<Entry>, reindex: bool, callback: Option<Value -> bool>): (r: seq<Entry>)
    ensures var kept := Survivors(dirty, callback);
      && |r| == |kept|
      && (forall i :: 0 <= i < |r| ==> r[i].1 == kept[i].1 && Kept(callback, r[i].1))
      && (!reindex ==> r == kept)
      && (reindex ==> forall i :: 0 <= i < |r| ==>
            && (kept[i].0.StrKey? ==> r[i].0 == kept[i].0)
            && (kept[i].0.IntKey? ==> r[i].0 == IntKey(IntKeyCount(kept[..i]))))
  {
    var kept := Survivors(dirty, callback);
    assert forall i :: 0 <= i < |kept| ==> Kept(callback, kept[i].1) by {
      forall i | 0 <= i < |kept| ensures Kept(callback, kept[i].1) { assert kept[i] in kept; }
    }
    RenumberEntries(kept, 0);
    if reindex then Renumber(kept, 0) else kept
  }

  /**
   * Without a callback and without reindexing, `clear` returns exactly the
   * entries whose value is not falsy, as an in-order subsequence of the input.
   */
  lemma ClearDefault(dirty: seq<Entry>)
    ensures forall e :: e in Clear(dirty, false, None) <==> e in dirty && !Falsy(e.1)
    ensures SubsequenceOf(Clear(dirty, false, None), dirty)
  {
    FilterIsSubsequence(dirty, (e: Entry) => Kept(None, e.1));
  }

  lemma {:induction false} IntKeyCountPrefix(a: seq<Entry>, i: nat, j: nat)
    requires i < j <= |a| && a[i].0.IntKey?
    ensures IntKeyCount(a[..i]) < IntKeyCount(a[..j])
  {
    if i == 0 {
      assert a[..j][0] == a[0];
    } else {
      assert a[..i][0] == a[0] && a[..j][0] == a[0];
      assert a[..i][1..] == a[1..][..i - 1];
      assert a[..j][1..] == a[1..][..j - 1];
      IntKeyCountPrefix(a[1..], i - 1, j - 1);
    }
  }

  /** `array_merge` of a valid array is a valid array. */
  lemma RenumberDistinct(a: seq<Entry>)
    requires ValidArray(a)
    ensures ValidArray(Renumber(a, 0))
  {
    var r := Renumber(a, 0);
    RenumberEntries(a, 0);
    forall i, j | 0 <= i < j < |r|
      ensures r[i].0 != r[j].0
    {
      if a[i].0.IntKey? && a[j].0.IntKey? {
        IntKeyCountPrefix(a, i, j);
      }
    }
  }

  /** A subsequence of a valid array is a valid array. */
  lemma SubsequenceValid(r: seq<Entry>, a: seq<Entry>)
    requires SubsequenceOf(r, a) && ValidArray(a)
    ensures ValidArray(r)
  {
    SubsequenceDistinct(r, a);
    forall i | 0 <= i < |r| ensures ValidKey(r[i].0) {
      assert r[i] in r;
      var k :| 0 <= k < |a| && a[k] == r[i];
    }
  }

  /** A subsequence of an array with distinct keys has distinct keys. */
  lemma {:induction false} SubsequenceDistinct(r: seq<Entry>, a: seq<Entry>)
    requires SubsequenceOf(r, a) && DistinctKeys(a)
    ensures DistinctKeys(r)
    ensures forall e :: e in r ==> e in a
    decreases |a|
  {
    if |r| > 0 {
      assert |a| > 0;
      assert DistinctKeys(a[1..]) by {
        forall i, j | 0 <= i < j < |a| - 1 ensures a[1..][i].0 != a[1..][j].0 {
          assert a[1..][i] == a[i + 1] && a[1..][j] == a[j + 1];
        }
      }
      if r[0] == a[0] && SubsequenceOf(r[1..], a[1..]) {
        SubsequenceDistinct(r[1..], a[1..]);
        forall i, j | 0 <= i < j < |r| ensures r[i].0 != r[j].0 {
          if i == 0 {
            assert r[j] == r[1..][j - 1];
            assert r[1..][j - 1] in r[1..];
            var k :| 0 <= k < |a[1..]| && a[1..][k] == r[j];
            assert a[k + 1] == r[j];
          } else {
            assert r[i] == r[1..][i - 1] && r[j] == r[1..][j - 1];
          }
        }
        forall e | e in r ensures e in a {
          if e != r[0] { assert e in r[1..]; }
        }
      } else {
        SubsequenceDistinct(r, a[1..]);
      }
    }
  }

  /** `clear` turns a valid array into a valid array, in every mode. */
  lemma ClearDistinct(dirty: seq<Entry>, reindex: bool, callback: Option<Value -> bool>)
    requires ValidArray(dirty)
    ensures ValidArray(Clear(dirty, reindex, callback))
  {
    var kept := Survivors(dirty, callback);
    FilterIsSubsequence(dirty, (e: Entry) => Kept(callback, e.1));
    SubsequenceValid(kept, dirty);
    if reindex {
      RenumberDistinct(kept);
    }
  }

  /** After reindexing a list whose keys are all integers, the keys are exactly 0 .. k-1. */
  lemma ClearReindexedList(dirty: seq<Entry>, callback: Option<Value -> bool>)
    requires forall e :: e in dirty ==> e.0.IntKey?
    ensures forall i :: 0 <= i < |Clear(dirty, true, callback)| ==> Clear(dirty, true, callback)[i].0 == IntKey(i)
  {
    var kept := Survivors(dirty, callback);
    forall i | 0 <= i < |kept|
      ensures kept[i].0.IntKey? && IntKeyCount(kept[..i]) == i
    {
      assert kept[i] in kept;
      assert forall e :: e in kept[..i] ==> e in kept;
      AllIntKeys(kept[..i]);
    }
  }

  lemma {:induction false} AllIntKeys(a: seq<Entry>)
    requires forall e :: e in a ==> e.0.IntKey?
    ensures IntKeyCount(a) == |a|
  {
    if |a| > 0 {
      assert a[0] in a;
      assert forall e :: e in a[1..] ==> e in a;
      AllIntKeys(a[1..]);
    }
  }

  // ---------------------------------------------------------------------------
  // whitelist, blacklist and the private remove
  // ---------------------------------------------------------------------------

  /** The `$list` argument: one key, or an array of keys. */
  datatype KeyList = One(key: Key) | Many(keys: seq<Key>)

  datatype Mode = Whitelist | Blacklist

  /**
   * The key a listed key names. `array_key_exists`, `unset` and `==` against
   * an integer key all read a string that spells a canonical decimal as that
   * integer, so listing "5" names the key 5.
   */
  function ListedKey(k: Key): (r: Key)
    ensures ValidKey(r)
    ensures ValidKey(k) ==> r == k
    ensures k.StrKey? && CanonicalDecimal(k.s) ==> r == KeyOf(k.s) && r.IntKey?
  {
    match k
    case IntKey(_) => k
    case StrKey(s) => KeyOf(s)
  }

  /**
   * `if (!is_array($list)) $list = [$list];`, each listed key read as the key
   * it names.
   */
  function ListKeys(list: KeyList): (keys: seq<Key>)
    ensures list.One? ==> keys == [ListedKey(list.key)]
    ensures list.Many? ==> |keys| == |list.keys| && forall i :: 0 <= i < |keys| ==> keys[i] == ListedKey(list.keys[i])
    ensures forall k :: k in keys ==> ValidKey(k)
  {
    match list
    case One(k) => [ListedKey(k)]
    case Many(ks) => seq(|ks|, i requires 0 <= i < |ks| => ListedKey(ks[i]))
  }

  /** The entries whose key is in `keys`, in array order. */
  function WithKeysIn(a: seq<Entry>, keys: seq<Key>): (r: seq<Entry>)
    ensures forall e {:trigger e in r} :: e in r <==> e in a && e.0 in keys
  {
    Filter(a, (e: Entry) => e.0 in keys)
  }

  /** The entries whose key is not in `keys`, in array order. */
  function WithoutKeys(a: seq<Entry>, keys: seq<Key>): (r: seq<Entry>)
    ensures forall e {:trigger e in r} :: e in r <==> e in a && e.0 !in keys
  {
    Filter(a, (e: Entry) => e.0 !in keys)
  }

  /** `array_key_exists($key, $array)`. */
  predicate KeyExists(key: Key, a: seq<Entry>)
  {
    exists i :: 0 <= i < |a| && a[i].0 == key
  }

  /** Unsetting keys one after another removes every entry with any of them. */
  lemma UnsetOneMore(a: seq<Entry>, keys: seq<Key>, k: Key)
    ensures WithoutKeys(WithoutKeys(a, keys), [k]) == WithoutKeys(a, keys + [k])
  {
    FilterFilter(a, (e: Entry) => e.0 !in keys, (e: Entry) => e.0 !in [k], (e: Entry) => e.0 !in keys + [k]);
  }

  /**
   * The private `remove`: collects the keys to drop in `$remove` (for a
   * blacklist, the listed keys the array has; for a whitelist, the array's
   * keys that are not listed) and then unsets them one by one from a copy.
   */
  method Remove(arr: seq<Entry>, list: KeyList, mode: Mode) returns (r: seq<Entry>)
    ensures mode == Whitelist ==> r == WithKeysIn(arr, ListKeys(list))
    ensures mode == Blacklist ==> r == WithoutKeys(arr, ListKeys(list))
  {
    var keys := ListKeys(list);
    var remove: seq<Key> := [];
    match mode {
      case Blacklist =>
        for i := 0 to |keys|
          invariant forall k :: k in remove <==> k in keys[..i] && KeyExists(k, arr)
        {
          if KeyExists(keys[i], arr) {
            remove := remove + [keys[i]];
          }
          assert keys[..i + 1] == keys[..i] + [keys[i]];
        }
        assert keys[..|keys|] == keys;
      case Whitelist =>
        for i := 0 to |arr|
          invariant forall k :: k in remove <==> KeyExists(k, arr[..i]) && k !in keys
        {
          if arr[i].0 !in keys {
            remove := remove + [arr[i].0];
          }
          forall k ensures KeyExists(k, arr[..i + 1]) <==> KeyExists(k, arr[..i]) || k == arr[i].0 {
            if KeyExists(k, arr[..i + 1]) {
              var j :| 0 <= j < i + 1 && arr[..i + 1][j].0 == k;
              if j < i { assert arr[..i][j].0 == k; }
            }
            if KeyExists(k, arr[..i]) {
              var j :| 0 <= j < i && arr[..i][j].0 == k;
              assert arr[..i + 1][j].0 == k;
            }
            if k == arr[i].0 {
              assert arr[..i + 1][i].0 == k;
            }
          }
        }
        assert arr[..|arr|] == arr;
    }
    r := arr;
    FilterKeepsAll(arr, (e: Entry) => e.0 !in remove[..0]);
    for j := 0 to |remove|
      invariant r == WithoutKeys(arr, remove[..j])
    {
      UnsetOneMore(arr, remove[..j], remove[j]);
      assert remove[..j + 1] == remove[..j] + [remove[j]];
      r := WithoutKeys(r, [remove[j]]);
    }
    assert remove[..|remove|] == remove;
    forall e | e in arr
      ensures (e.0 !in remove) == (if mode == Whitelist then e.0 in keys else e.0 !in keys)
    {
      var i :| 0 <= i < |arr| && arr[i] == e;
      assert KeyExists(e.0, arr);
    }
    if mode == Whitelist {
      FilterAgree(arr, (e: Entry) => e.0 !in remove, (e: Entry) => e.0 in keys);
    } else {
      FilterAgree(arr, (e: Entry) => e.0 !in remove, (e: Entry) => e.0 !in keys);
    }
  }

  /**
   * `Arrays::whitelist`: every key left is listed, and every entry whose key
   * is listed is kept with its value, in array order.
   */
  method WhitelistArray(arr: seq<Entry>, whitelist: KeyList) returns (r: seq<Entry>)
    ensures forall e :: e in r <==> e in arr && e.0 in ListKeys(whitelist)
    ensures SubsequenceOf(r, arr)
    ensures r == WithKeysIn(arr, ListKeys(whitelist))
  {
    r := Remove(arr, whitelist, Whitelist);
    FilterIsSubsequence(arr, (e: Entry) => e.0 in ListKeys(whitelist));
  }

  /**
   * `Arrays::blacklist`: no listed key is left, and every other entry is kept
   * with its key and value, in array order.
   */
  method BlacklistArray(arr: seq<Entry>, blacklist: KeyList) returns (r: seq<Entry>)
    ensures forall e :: e in r <==> e in arr && e.0 !in ListKeys(blacklist)
    ensures SubsequenceOf(r, arr)
    ensures r == WithoutKeys(arr, ListKeys(blacklist))
  {
    r := Remove(arr, blacklist, Blacklist);
    FilterIsSubsequence(arr, (e: Entry) => e.0 !in ListKeys(blacklist));
  }

  /**
   * A whitelist and a blacklist with the same keys split the array: no entry
   * is in both, and together they hold every entry of the array exactly once.
   */
  lemma WhitelistBlacklistPartition(arr: seq<Entry>, keys: seq<Key>)
    ensures forall e :: !(e in WithKeysIn(arr, keys) && e in WithoutKeys(arr, keys))
    ensures multiset(WithKeysIn(arr, keys)) + multiset(WithoutKeys(arr, keys)) == multiset(arr)
  {
    FilterPartition(arr, (e: Entry) => e.0 in keys, (e: Entry) => e.0 !in keys);
  }

  /** A one-key list behaves as the list holding that key. */
  lemma ScalarListIsSingleton(arr: seq<Entry>, key: Key)
    ensures WithKeysIn(arr, ListKeys(One(key))) == WithKeysIn(arr, ListKeys(Many([key])))
    ensures WithoutKeys(arr, ListKeys(One(key))) == WithoutKeys(arr, ListKeys(Many([key])))
    ensures forall e :: e in WithoutKeys(arr, ListKeys(One(key))) ==> e.0 != ListedKey(key)
  {
    assert ListKeys(One(key)) == ListKeys(Many([key]));
  }

  /**
   * Blacklisting "5" removes the integer key 5, as `array_key_exists('5', …)`
   * and `unset($array['5'])` do, and whitelisting "5" keeps it.
   */
  lemma NumericStringListed()
    ensures WithoutKeys([(IntKey(5), Int(1))], ListKeys(One(StrKey("5")))) == []
    ensures WithKeysIn([(IntKey(5), Int(1))], ListKeys(One(StrKey("5")))) == [(IntKey(5), Int(1))]
  {
    assert ListKeys(One(StrKey("5"))) == [IntKey(5)] by {
      assert CanonicalDecimal("5");
      assert DigitsValue("5") == 5;
    }
  }

  // ---------------------------------------------------------------------------
  // compare
  // ---------------------------------------------------------------------------

  /** PHP's `empty()` on a string: "" and "0". */
  predicate EmptyString(s: string) { s == "" || s == "0" }

  predicate AllDigits(s: string) { forall i :: 0 <= i < |s| ==> Strings.IsDigit(s[i]) }

  /** A decimal integer written the canonical way: no sign "+", no leading zero, no "-0". */
  predicate CanonicalDecimal(s: string)
  {
    || s == "0"
    || (|s| > 0 && '1' <= s[0] <= '9' && AllDigits(s[1..]))
    || (|s| > 1 && s[0] == '-' && '1' <= s[1] <= '9' && AllDigits(s[2..]))
  }

  /** The number a string of decimal digits spells. */
  function DigitsValue(s: string): (n: nat)
    requires AllDigits(s)
  {
    if |s| == 0 then 0 else DigitsValue(s[..|s| - 1]) * 10 + (s[|s| - 1] as int - '0' as int)
  }

  /**
   * The key PHP uses for `$array[$s]`: a canonical decimal string is cast to
   * an integer key, any other string stays a string key.
   */
  function KeyOf(s: string): (k: Key)
    ensures k.IntKey? <==> CanonicalDecimal(s)
    ensures k.StrKey? ==> k.s == s
    ensures k.IntKey? && s[0] != '-' ==> AllDigits(s) && k.i == DigitsValue(s)
    ensures k.IntKey? && s[0] == '-' ==> AllDigits(s[1..]) && k.i == -(DigitsValue(s[1..]) as int)
  {
    if s == "0" then IntKey(0)
    else if |s| > 0 && '1' <= s[0] <= '9' && AllDigits(s[1..]) then
      assert AllDigits(s) by { assert forall i :: 0 < i < |s| ==> s[i] == s[1..][i - 1]; }
      IntKey(DigitsValue(s))
    else if CanonicalDecimal(s) then
      assert AllDigits(s[1..]) by { assert forall i :: 1 < i < |s| ==> s[i] == s[2..][i - 2]; }
      IntKey(-(DigitsValue(s[1..]) as int))
    else StrKey(s)
  }

  /** The decimal notation of a natural number, without leading zeros. */
  function NatDecimal(n: nat): (s: string)
    ensures |s| > 0 && AllDigits(s)
  {
    if n < 10 then [('0' as int + n) as char] else NatDecimal(n / 10) + [('0' as int + n % 10) as char]
  }

  /** The notation spells the number, and starts with a non-zero digit unless the number is 0. */
  lemma {:induction false} NatDecimalValue(n: nat)
    ensures DigitsValue(NatDecimal(n)) == n
    ensures n > 0 ==> '1' <= NatDecimal(n)[0] <= '9'
    ensures n == 0 ==> NatDecimal(n) == "0"
  {
    if n >= 10 {
      NatDecimalValue(n / 10);
      var s := NatDecimal(n);
      assert s[..|s| - 1] == NatDecimal(n / 10);
      assert s[0] == NatDecimal(n / 10)[0];
    }
  }

  /** The decimal notation of an integer, with a minus sign when it is negative. */
  function Decimal(n: int): (s: string)
    ensures n >= 0 ==> s == NatDecimal(n)
    ensures n < 0 ==> s == "-" + NatDecimal(-n)
  {
    if n >= 0 then NatDecimal(n) else "-" + NatDecimal(-n)
  }

  /**
   * The key of an integer written in decimal is that integer: a comparison
   * key "5" reads the entry `$a[5]`, and "-7" reads `$a[-7]`.
   */
  lemma KeyOfDecimal(n: int)
    ensures KeyOf(Decimal(n)) == IntKey(n)
  {
    if n >= 0 {
      NatDecimalValue(n);
      var s := NatDecimal(n);
      assert AllDigits(s[1..]) by { assert forall i :: 0 <= i < |s| - 1 ==> s[1..][i] == s[i + 1]; }
    } else {
      NatDecimalValue(-n);
      var s := "-" + NatDecimal(-n);
      assert s[1..] == NatDecimal(-n);
      assert AllDigits(s[2..]) by { assert forall i :: 0 <= i < |s| - 2 ==> s[2..][i] == s[1..][i + 1]; }
    }
  }

  /** A number written with a leading zero, such as "012", stays a string key. */
  lemma KeyOfLeadingZero(s: string)
    requires |s| > 1 && s[0] == '0'
    ensures KeyOf(s) == StrKey(s)
  {
  }

  /** `$array[$key]`: the value stored under the key, or null (after a warning) when there is none. */
  function Get(a: seq<Entry>, key: Key): (v: Value)
    ensures !KeyExists(key, a) ==> v == Null
    ensures forall i :: 0 <= i < |a| && a[i].0 == key && (forall j :: 0 <= j < i ==> a[j].0 != key) ==> v == a[i].1
  {
    if |a| == 0 then Null
    else if a[0].0 == key then a[0].1
    else
      var v := Get(a[1..], key);
      KeyExistsTail(key, a);
      v
  }

  /** A key of the tail is a key of the array, at the position one further on. */
  lemma KeyExistsTail(key: Key, a: seq<Entry>)
    requires |a| > 0
    ensures KeyExists(key, a[1..]) ==> KeyExists(key, a)
    ensures forall i :: 0 < i < |a| ==> a[i] == a[1..][i - 1]
  {
    if KeyExists(key, a[1..]) {
      var i :| 0 <= i < |a[1..]| && a[1..][i].0 == key;
      assert a[i + 1].0 == key;
    }
  }

  /** The outcome of `compare`: an order sign, or the exception for an empty key. */
  datatype Comparison = Ordered(sign: int) | EmptyKeyError

  /** `less` is a strict total order on values: of two different values exactly one is smaller. */
  ghost predicate StrictTotalOrder(less: (Value, Value) -> bool)
  {
    && (forall x, y :: x != y ==> less(x, y) != less(y, x))
    && (forall x, y, z :: less(x, y) && less(y, z) ==> less(x, z))
    && (forall x :: !less(x, x))
  }

  /**
   * The state `compare` reads: the static `$comparison_key`, which callers
   * set before handing `compare` to `usort`. It starts empty.
   */
  class KeyedComparator {
    var comparisonKey: string

    constructor ()
      ensures comparisonKey == ""
    {
      comparisonKey := "";
    }

    /**
     * `Arrays::compare`: throws while the comparison key is empty; otherwise
     * 0 for equal keyed values, -1 when `a`'s is smaller and 1 when it is
     * larger.
     */
    function Compare(a: seq<Entry>, b: seq<Entry>, less: (Value, Value) -> bool): (r: Comparison)
      reads this
      ensures r.EmptyKeyError? <==> EmptyString(comparisonKey)
      ensures r.Ordered? ==> r.sign in {-1, 0, 1}
      ensures r.Ordered? ==> (r.sign == 0 <==> Get(a, KeyOf(comparisonKey)) == Get(b, KeyOf(comparisonKey)))
      ensures r.Ordered? && r.sign == -1 ==> less(Get(a, KeyOf(comparisonKey)), Get(b, KeyOf(comparisonKey)))
      ensures r.Ordered? && r.sign == 1 ==> !less(Get(a, KeyOf(comparisonKey)), Get(b, KeyOf(comparisonKey)))
    {
      if EmptyString(comparisonKey) then EmptyKeyError
      else
        var x, y := Get(a, KeyOf(comparisonKey)), Get(b, KeyOf(comparisonKey));
        if x == y then Ordered(0)
        else if less(x, y) then Ordered(-1)
        else Ordered(1)
    }
  }

  /**
   * For a total order, `compare` is antisymmetric, reflexive and transitive,
   * as `usort` needs of a comparator; it fails for both argument orders alike.
   */
  lemma CompareIsComparator(c: KeyedComparator, a: seq<Entry>, b: seq<Entry>, d: seq<Entry>, less: (Value, Value) -> bool)
    requires StrictTotalOrder(less)
    ensures c.Compare(a, b, less).EmptyKeyError? == c.Compare(b, a, less).EmptyKeyError?
    ensures c.Compare(a, b, less).Ordered? ==> c.Compare(b, a, less).sign == -c.Compare(a, b, less).sign
    ensures c.Compare(a, a, less).Ordered? ==> c.Compare(a, a, less).sign == 0
    ensures c.Compare(a, b, less).Ordered? && c.Compare(a, b, less).sign <= 0 && c.Compare(b, d, less).sign <= 0 ==>
      c.Compare(a, d, less).sign <= 0
  {
  }

  /** An empty key and the key "0" both make `compare` throw. */
  lemma CompareEmptyKeys(c: KeyedComparator, a: seq<Entry>, b: seq<Entry>, less: (Value, Value) -> bool)
    requires c.comparisonKey == "" || c.comparisonKey == "0"
    ensures c.Compare(a, b, less) == EmptyKeyError
  {
  }

  // ---------------------------------------------------------------------------
  // unsetByValue
  // ---------------------------------------------------------------------------

  /**
   * The comparison `array_keys` uses: `===` (structural equality) when
   * strict, otherwise the given loose `==`.
   */
  predicate Matches(x: Value, value: Value, strict: bool, loose: (Value, Value) -> bool)
  {
    if strict then x == value else loose(x, value)
  }

  /** The entries whose value matches `value`, in array order. */
  function MatchingEntries(a: seq<Entry>, value: Value, strict: bool, loose: (Value, Value) -> bool): (r: seq<Entry>)
    ensures forall e {:trigger e in r} :: e in r <==> e in a && Matches(e.1, value, strict, loose)
  {
    Filter(a, (e: Entry) => Matches(e.1, value, strict, loose))
  }

  /** The entries whose value does not match `value`, in array order. */
  function WithoutValue(a: seq<Entry>, value: Value, strict: bool, loose: (Value, Value) -> bool): (r: seq<Entry>)
    ensures forall e {:trigger e in r} :: e in r <==> e in a && !Matches(e.1, value, strict, loose)
  {
    Filter(a, (e: Entry) => !Matches(e.1, value, strict, loose))
  }

  function Keys(a: seq<Entry>): (ks: seq<Key>)
    ensures |ks| == |a| && forall i :: 0 <= i < |a| ==> ks[i] == a[i].0
  {
    if |a| == 0 then [] else [a[0].0] + Keys(a[1..])
  }

  /**
   * `array_keys($array, $value, $strict)`: the keys of the entries whose
   * value matches, in array order.
   */
  method ArrayKeys(a: seq<Entry>, value: Value, strict: bool, loose: (Value, Value) -> bool) returns (ks: seq<Key>)
    ensures ks == Keys(MatchingEntries(a, value, strict, loose))
    ensures forall i :: 0 <= i < |a| && Matches(a[i].1, value, strict, loose) ==> a[i].0 in ks
    ensures forall k :: k in ks ==> exists i :: 0 <= i < |a| && a[i].0 == k && Matches(a[i].1, value, strict, loose)
  {
    ks := [];
    for i := 0 to |a|
      invariant ks == Keys(MatchingEntries(a[..i], value, strict, loose))
    {
      FilterConcat(a[..i], [a[i]], (e: Entry) => Matches(e.1, value, strict, loose));
      assert a[..i + 1] == a[..i] + [a[i]];
      KeysConcat(MatchingEntries(a[..i], value, strict, loose), MatchingEntries([a[i]], value, strict, loose));
      if Matches(a[i].1, value, strict, loose) {
        ks := ks + [a[i].0];
      }
    }
    assert a[..|a|] == a;
    MatchingKeys(a, value, strict, loose);
  }

  /** The keys of the matching entries are exactly the keys of entries whose value matches. */
  lemma MatchingKeys(a: seq<Entry>, value: Value, strict: bool, loose: (Value, Value) -> bool)
    ensures forall i :: 0 <= i < |a| && Matches(a[i].1, value, strict, loose) ==> a[i].0 in Keys(MatchingEntries(a, value, strict, loose))
    ensures forall k :: k in Keys(MatchingEntries(a, value, strict, loose)) ==>
      exists i :: 0 <= i < |a| && a[i].0 == k && Matches(a[i].1, value, strict, loose)
  {
    var m := MatchingEntries(a, value, strict, loose);
    var ks := Keys(m);
    forall i | 0 <= i < |a| && Matches(a[i].1, value, strict, loose)
      ensures a[i].0 in ks
    {
      assert a[i] in m;
      var j :| 0 <= j < |m| && m[j] == a[i];
      assert ks[j] == a[i].0;
    }
    forall k | k in ks
      ensures exists i :: 0 <= i < |a| && a[i].0 == k && Matches(a[i].1, value, strict, loose)
    {
      var j :| 0 <= j < |ks| && ks[j] == k;
      assert m[j] in m;
      var i :| 0 <= i < |a| && a[i] == m[j];
    }
  }

  lemma {:induction false} KeysConcat(a: seq<Entry>, b: seq<Entry>)
    ensures Keys(a + b) == Keys(a) + Keys(b)
  {
  }

  /**
   * In a valid array, unsetting the keys `array_keys` reports for a value
   * removes exactly the entries holding that value.
   */
  lemma UnsetMatchingKeys(a: seq<Entry>, keys: seq<Key>, value: Value, strict: bool, loose: (Value, Value) -> bool)
    requires DistinctKeys(a)
    requires keys == Keys(MatchingEntries(a, value, strict, loose))
    ensures WithoutKeys(a, keys) == WithoutValue(a, value, strict, loose)
  {
    var m := MatchingEntries(a, value, strict, loose);
    forall e | e in a
      ensures (e.0 !in keys) == !Matches(e.1, value, strict, loose)
    {
      if Matches(e.1, value, strict, loose) {
        assert e in m;
        var j :| 0 <= j < |m| && m[j] == e;
        assert keys[j] == e.0;
      }
      if e.0 in keys {
        var j :| 0 <= j < |keys| && keys[j] == e.0;
        assert m[j] in m;
        var i :| 0 <= i < |a| && a[i] == e;
        var i' :| 0 <= i' < |a| && a[i'] == m[j];
        assert i' == i;
      }
    }
    FilterAgree(a, (e: Entry) => e.0 !in keys, (e: Entry) => !Matches(e.1, value, strict, loose));
  }

  /**
   * Removing a value leaves a valid array in which no entry matches it, keeps
   * every other entry with its key, value and relative order, and leaves an
   * array with no match as it was.
   */
  lemma WithoutValueProperties(a: seq<Entry>, value: Value, strict: bool, loose: (Value, Value) -> bool)
    ensures var r := WithoutValue(a, value, strict, loose);
      && (ValidArray(a) ==> ValidArray(r))
      && (forall e :: e in r ==> !Matches(e.1, value, strict, loose))
      && (forall e :: e in a && !Matches(e.1, value, strict, loose) ==> e in r)
      && SubsequenceOf(r, a)
      && ((forall e :: e in a ==> !Matches(e.1, value, strict, loose)) <==> r == a)
  {
    var r := WithoutValue(a, value, strict, loose);
    FilterIsSubsequence(a, (e: Entry) => !Matches(e.1, value, strict, loose));
    if ValidArray(a) {
      SubsequenceValid(r, a);
    }
    FilterKeepsAllIff(a, (e: Entry) => !Matches(e.1, value, strict, loose));
  }

  /**
   * A PHP array held by reference, as `unsetByValue` receives it. Its keys
   * are always stored as PHP stores them, and distinct.
   */
  class PhpArray {
    var entries: seq<Entry>

    ghost predicate Valid()
      reads this
    {
      ValidArray(entries)
    }

    constructor (initial: seq<Entry>)
      requires ValidArray(initial)
      ensures Valid() && entries == initial
    {
      entries := initial;
    }

    /**
     * `Arrays::unsetByValue`: finds the keys of the matching values with
     * `array_keys` and unsets each. Afterwards no entry matches `value`,
     * every other entry is still there with its key, value and relative
     * order, and an array with no match is left as it was.
     */
    method UnsetByValue(value: Value, strict: bool, loose: (Value, Value) -> bool)
      requires Valid()
      modifies this
      ensures Valid()
      ensures entries == WithoutValue(old(entries), value, strict, loose)
    {
      ghost var original := entries;
      var keys := ArrayKeys(entries, value, strict, loose);
      UnsetKeys(keys);
      UnsetMatchingKeys(original, keys, value, strict, loose);
      WithoutValueProperties(original, value, strict, loose);
    }

    /** `foreach ($keys as $key) unset($array[$key]);` */
    method UnsetKeys(keys: seq<Key>)
      modifies this
      ensures entries == WithoutKeys(old(entries), keys)
    {
      ghost var original := entries;
      FilterKeepsAll(original, (e: Entry) => e.0 !in keys[..0]);
      for j := 0 to |keys|
        invariant entries == WithoutKeys(original, keys[..j])
      {
        UnsetOneMore(original, keys[..j], keys[j]);
        assert keys[..j + 1] == keys[..j] + [keys[j]];
        entries := WithoutKeys(entries, [keys[j]]);
      }
      assert keys[..|keys|] == keys;
    }
  }
}
