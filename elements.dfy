/** Plain-value stand-ins for the page elements the script touches: an element
    collection in document order is a sequence of attribute values (ids, hrefs,
    data-target values), and its "active"/"open" classes are an array of flags. */
module Elements {

  datatype Option<T> = None | Some(value: T)

  /** The position of the first element whose attribute equals `key`, which is
      what a `querySelector` on that attribute returns; None when no element has it. */
  function FirstIndex(keys: seq<string>, key: string): (r: Option<nat>)
    ensures r.None? <==> key !in keys
    ensures r.Some? ==> r.value < |keys| && keys[r.value] == key
    ensures r.Some? ==> forall j :: 0 <= j < r.value ==> keys[j] != key
  {
    if |keys| == 0 then None
    else if keys[0] == key then Some(0)
    else match FirstIndex(keys[1..], key)
      case None => None
      case Some(k) => Some(k + 1)
  }

  /** The flags of `n` elements once every flag has been cleared and then the
      element `k`, if there is one, has been marked. */
  function Marked(n: nat, k: Option<nat>): (r: seq<bool>)
    ensures |r| == n
    ensures forall j :: 0 <= j < n ==> (r[j] <==> k == Some(j))
  {
    seq(n, j => k == Some(j))
  }

  /** The number of marked elements. */
  function Count(flags: seq<bool>): (c: nat)
    ensures c <= |flags|
  {
    if flags == [] then 0
    else Count(flags[..|flags| - 1]) + (if flags[|flags| - 1] then 1 else 0)
  }

  /** Clearing and then marking one element leaves exactly one element marked
      when it exists, and none otherwise. */
  lemma {:induction false} MarkedCount(n: nat, k: Option<nat>)
    ensures Count(Marked(n, k)) == if k.Some? && k.value < n then 1 else 0
  {
    if n > 0 {
      assert Marked(n, k)[..n - 1] == Marked(n - 1, k);
      MarkedCount(n - 1, k);
    }
  }

  /** Marking element `k` of a cleared collection marks exactly `k`. */
  lemma MarkedAt(n: nat, k: nat)
    requires k < n
    ensures Marked(n, None)[k := true] == Marked(n, Some(k))
  {
  }

  /** `forEach(el => el.classList.remove(cls))`: clears the flag of every element. */
  method ClearAll(flags: array<bool>)
    modifies flags
    ensures flags[..] == Marked(flags.Length, None)
  {
    var i := 0;
    while i < flags.Length
      invariant 0 <= i <= flags.Length
      invariant forall j :: 0 <= j < i ==> !flags[j]
    {
      flags[i] := false;
      i := i + 1;
    }
  }

  /** A `querySelector` over one attribute: scans the collection in document
      order and stops at the first element whose attribute equals `key`. */
  method QuerySelector(keys: seq<string>, key: string) returns (r: Option<nat>)
    ensures r == FirstIndex(keys, key)
  {
    var i := 0;
    while i < |keys|
      invariant 0 <= i <= |keys|
      invariant forall j :: 0 <= j < i ==> keys[j] != key
    {
      if keys[i] == key {
        return Some(i);
      }
      i := i + 1;
    }
    return None;
  }
}
