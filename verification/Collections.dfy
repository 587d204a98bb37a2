/** The growable array and the collision-free table of util.c. */
module Collections {
  import opened Options

  // ---------- array_* ----------

  /** A null element or a miss is None to the callers of `array_get` and `array_pop`. */
  class GrowArray<T(0)> {
    var data: array<T>
    var size: nat
    /** The capacity at creation, the elements moved by reallocations, and those ever appended. */
    ghost const initial: nat
    ghost var moved: nat
    ghost var appended: nat

    ghost predicate Valid()
      reads this
    {
      && 0 < initial <= data.Length
      && size <= data.Length && size <= appended
      && moved == data.Length - initial
      && (data.Length == initial || data.Length < 2 * appended)
    }

    ghost function Contents(): seq<T>
      requires Valid()
      reads this, data
    {
      data[..size]
    }

    constructor (initialCapacity: nat)
      requires 0 < initialCapacity
      ensures Valid() && fresh(data) && Contents() == [] && moved == appended == 0
    {
      data := new T[initialCapacity];
      size, initial, moved, appended := 0, initialCapacity, 0, 0;
    }

    /** Doubles a full array; the new half is uninitialised. */
    method Reserve()
      requires Valid()
      modifies this`data, this`moved
      ensures 0 < initial <= data.Length && size < data.Length
      ensures moved == data.Length - initial
      ensures data.Length == initial || data.Length < 2 * (appended + 1)
      ensures (data == old(data) || fresh(data)) && data[..size] == old(data[..size])
    {
      if size == data.Length {
        var bigger := new T[data.Length * 2];
        forall i | 0 <= i < size { bigger[i] := data[i]; }
        assert bigger[..size] == data[..size];
        data := bigger;
        moved := moved + size;
      }
    }

    method Push(element: T)
      requires Valid()
      modifies this, data
      ensures Valid() && (data == old(data) || fresh(data))
      ensures Contents() == old(Contents()) + [element] && appended == old(appended) + 1
      ensures moved < 2 * appended
    {
      Reserve();
      data[size] := element;
      size := size + 1;
      appended := appended + 1;
    }

    method Pop() returns (element: Option<T>)
      requires Valid()
      modifies this`size
      ensures Valid()
      ensures match element
        case None => old(Contents()) == [] == Contents()
        case Some(e) => Contents() + [e] == old(Contents())
    {
      if size == 0 { return None; }
      size := size - 1;
      element := Some(data[size]);
    }

    /** Inside the capacity a put past the size extends the array over whatever lies there. */
    method Put(index: int, element: T)
      requires Valid()
      modifies this`size, this`appended, data
      ensures Valid()
      ensures 0 <= index < old(size) ==> Contents() == old(Contents())[index := element]
      ensures old(size) <= index < data.Length ==>
        |Contents()| == index + 1 && old(Contents()) <= Contents() && Contents()[index] == element
      ensures index < 0 || data.Length <= index ==> Contents() == old(Contents())
    {
      if 0 <= index < data.Length {
        data[index] := element;
        if size <= index {
          appended := appended + index + 1 - size;
          size := index + 1;
        }
      }
    }

    method Get(index: int) returns (element: Option<T>)
      requires Valid()
      ensures element == if 0 <= index < |Contents()| then Some(Contents()[index]) else None
    {
      if 0 <= index < size { element := Some(data[index]); } else { element := None; }
    }
  }

  // ---------- table_* ----------

  /** C's remainder: the sign of the result is the sign of the key. */
  function Slot(key: int, capacity: nat): (k: int)
    requires 0 < capacity
    ensures k < capacity && (0 <= key ==> 0 <= k)
  {
    if 0 <= key then key % capacity else -((-key) % capacity)
  }

  /** `table_put`: false when the slot of a negative key is meant, or a live entry would be overwritten. */
  function TablePut<V>(data: seq<Option<V>>, key: int, value: Option<V>): (r: (seq<Option<V>>, bool))
    requires data != []
  {
    var k := Slot(key, |data|);
    if k < 0 || (value.Some? && data[k].Some?) then (data, false) else (data[k := value], true)
  }

  function TableLookup<V>(data: seq<Option<V>>, key: int): Option<V>
    requires data != []
  {
    var k := Slot(key, |data|);
    if k < 0 then None else data[k]
  }

  /** `data` holds the entries of `m`, each in the slot of its key, and nothing else. */
  ghost predicate Represents<V(!new)>(data: seq<Option<V>>, m: map<int, V>)
    requires data != []
  {
    && (forall key | key in m :: 0 <= key && data[Slot(key, |data|)] == Some(m[key]))
    && (forall k | 0 <= k < |data| && data[k].Some? :: exists key :: key in m && Slot(key, |data|) == k)
    && (forall key, other | key in m && other in m && key != other :: Slot(key, |data|) != Slot(other, |data|))
  }

  /** No key of `m` but `key` itself has its slot. */
  ghost predicate NoClash<V>(m: map<int, V>, key: int, capacity: nat)
    requires 0 < capacity
  {
    forall other | other in m && other != key :: Slot(other, capacity) != Slot(key, capacity)
  }

  /** While the keys in use are distinct modulo the capacity, the table is a finite map. */
  lemma TableRefinesMap<V(!new)>(data: seq<Option<V>>, m: map<int, V>, key: int, value: V)
    requires data != [] && Represents(data, m) && 0 <= key && NoClash(m, key, |data|)
    ensures TableLookup(data, key) == if key in m then Some(m[key]) else None
    ensures key !in m ==>
      TablePut(data, key, Some(value)).1 && Represents(TablePut(data, key, Some(value)).0, m[key := value])
    ensures key in m ==> TablePut(data, key, Some(value)) == (data, false)
    ensures TablePut(data, key, None).1 && Represents(TablePut(data, key, None).0, m - {key})
  {
    var k := Slot(key, |data|);
    var added := TablePut(data, key, Some(value)).0;
    var cleared := TablePut(data, key, None).0;
    if key !in m {
      assert data[k] == None;
      forall j | 0 <= j < |data| && added[j].Some? ensures exists x :: x in m[key := value] && Slot(x, |data|) == j {
        if j == k { assert key in m[key := value]; } else {
          var x :| x in m && Slot(x, |data|) == j;
          assert x in m[key := value];
        }
      }
    }
    forall j | 0 <= j < |data| && cleared[j].Some? ensures exists x :: x in m - {key} && Slot(x, |data|) == j {
      var x :| x in m && Slot(x, |data|) == j;
      assert x in m - {key};
    }
  }

  /** A clash never overwrites the entry in the slot, but a lookup finds it under the wrong key. */
  lemma TableClash<V(!new)>(data: seq<Option<V>>, m: map<int, V>, key: int, other: int, value: V)
    requires data != [] && Represents(data, m) && 0 <= key
    requires other in m && key != other && Slot(other, |data|) == Slot(key, |data|)
    ensures TablePut(data, key, Some(value)) == (data, false)
    ensures TableLookup(data, key) == Some(m[other])
  {
  }
}
