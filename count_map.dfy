/**
 * The JavaScript `Map` the handler counts into, restricted to what the
 * handler uses: `new Map()`, `get`, `set` and iteration in insertion order.
 */
module CountMaps {
  import opened Buckets

  datatype Option<T> = None | Some(value: T)

  class CountMap {
    /** The keys in insertion order: the order `for ... of` visits them. */
    var keys: seq<nat>
    /** The value stored under each key. */
    var entries: map<nat, nat>

    /** The insertion order holds every key once and nothing else. */
    ghost predicate Valid()
      reads this
    {
      OrderedKeys(Table())
    }

    /** The map's contents as a table value. */
    function Table(): Tally
      reads this
    {
      Tally(keys, entries)
    }

    /** `new Map()` */
    constructor ()
      ensures Valid() && Table() == Empty
    {
      keys, entries := [], map[];
    }

    /** `get(k)`: the stored value, or `undefined` (None) for a key never set. */
    method Get(k: nat) returns (v: Option<nat>)
      ensures k in entries ==> v == Some(entries[k])
      ensures k !in entries ==> v == None
    {
      if k in entries {
        v := Some(entries[k]);
      } else {
        v := None;
      }
    }

    /** `set(k, v)`: a new key is appended to the insertion order; an existing key keeps its place. */
    method Set(k: nat, v: nat)
      requires Valid()
      modifies this
      ensures Valid()
      ensures Table() == MapSet(old(Table()), k, v)
    {
      if k !in entries {
        keys := keys + [k];
      }
      entries := entries[k := v];
    }
  }
}
