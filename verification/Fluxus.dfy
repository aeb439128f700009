/** The runtime's growable vector: a buffer whose first `len` cells are in use. */
module FluxusVector {

  class Fluxus<T(0)> {
    var data: array<T>
    var len: nat
    ghost var Repr: set<object>

    ghost predicate Valid()
      reads this, Repr
      ensures Valid() ==> this in Repr
    {
      Repr == {this, data} && len <= data.Length
    }

    ghost function Contents(): seq<T>
      requires Valid()
      reads this, Repr
    {
      data[..len]
    }

    constructor ()
      ensures Valid() && fresh(Repr) && Contents() == []
    {
      data := new T[0];
      len := 0;
      new;
      Repr := {this, data};
    }

    /** Reallocates when the request exceeds the capacity; the elements stay. */
    method Reserve(capacity: nat)
      requires Valid()
      modifies Repr
      ensures Valid() && fresh(Repr - old(Repr))
      ensures Contents() == old(Contents())
      ensures data.Length == if capacity <= old(data.Length) then old(data.Length) else capacity
    {
      if capacity <= data.Length { return; }
      var bigger := new T[capacity];
      forall k | 0 <= k < len { bigger[k] := data[k]; }
      data := bigger;
      Repr := {this, data};
    }

    method Push(x: T)
      requires Valid()
      modifies Repr
      ensures Valid() && fresh(Repr - old(Repr))
      ensures Contents() == old(Contents()) + [x]
      ensures data.Length == if old(len) < old(data.Length) then old(data.Length)
                             else if old(data.Length) == 0 then 8 else 2 * old(data.Length)
    {
      if len == data.Length {
        Reserve(if data.Length == 0 then 8 else data.Length * 2);
      }
      data[len] := x;
      len := len + 1;
    }

    function Get(i: nat): (x: T)
      requires Valid() && i < len
      reads this, Repr
      ensures x == Contents()[i]
    {
      data[i]
    }

    /** Closes the gap by shifting the tail one cell down. */
    method Remove(i: nat)
      requires Valid() && i < len
      modifies Repr
      ensures Valid() && fresh(Repr - old(Repr))
      ensures Contents() == old(Contents())[..i] + old(Contents())[i + 1..]
    {
      forall k | i <= k < len - 1 { data[k] := data[k + 1]; }
      len := len - 1;
    }
  }
}
