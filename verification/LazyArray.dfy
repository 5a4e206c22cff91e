/** LazyArray (util/lazy_array.h): elements are constructed on first access. */
module LazyArray {
  import IterableBitmap

  /** Constructed positions hold their element, the others stand for the initial one. */
  ghost function Visible<T>(a: seq<T>, built: set<nat>, initial: T): (s: seq<T>)
    ensures |s| == |a|
  {
    seq(|a|, i requires 0 <= i < |a| => if i in built then a[i] else initial)
  }

  class LazyArray<T(0)> {
    const constructed: IterableBitmap.Bitmap
    const arr: array<T>
    const initial: T  // a default-constructed element

    ghost predicate Valid() reads this, constructed, arr {
      constructed.Valid() && constructed.size == arr.Length
    }

    /** What each position holds as far as its user can tell. */
    ghost function Contents(): (s: seq<T>)
      requires Valid()
      reads this, constructed, arr
      ensures |s| == arr.Length
    {
      Visible(arr[..], constructed.Elements(), initial)
    }

    constructor (size: nat, initial: T)
      requires 0 < size <= IterableBitmap.MAX_SIZE
      ensures Valid() && arr.Length == size && fresh(arr) && fresh(constructed)
      ensures Contents() == seq(size, _ => initial)
    {
      this.initial := initial;
      constructed := new IterableBitmap.Bitmap(size);
      arr := new T[size];
    }

    /** operator[]: constructs the element if need be; nothing observable changes. */
    method Touch(i: nat)
      requires Valid() && i < arr.Length
      modifies constructed, arr
      ensures Valid() && Contents() == old(Contents())
      ensures i in constructed.Elements()
    {
      hide IterableBitmap.Consistent, IterableBitmap.Marked;
      var got := constructed.Get(i);
      if !got {
        arr[i] := initial;
        constructed.Set(i);
      }
    }

    method Get(i: nat) returns (v: T)
      requires Valid() && i < arr.Length
      modifies constructed, arr
      ensures Valid() && Contents() == old(Contents()) && v == Contents()[i]
    {
      Touch(i);
      v := arr[i];
    }

    method Put(i: nat, v: T)
      requires Valid() && i < arr.Length
      modifies constructed, arr
      ensures Valid() && Contents() == old(Contents())[i := v]
    {
      Touch(i);
      arr[i] := v;
    }
  }
}
