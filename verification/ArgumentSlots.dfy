/** instrumentation/TaintPass.cpp: where the caller stores the shadow of an argument and where the callee looks for it. */
module ArgumentSlots {
  import opened Base

  const ARG_TLS_SIZE: nat := 800
  const ALIGNMENT: nat := 4

  /** alignTo */
  function AlignTo(size: nat): nat {
    (size + ALIGNMENT - 1) / ALIGNMENT * ALIGNMENT
  }

  /** The least multiple of 4 that is not smaller. */
  lemma {:induction false} AlignIsLeast(size: nat, n: nat)
    ensures AlignTo(size) % 4 == 0 && size <= AlignTo(size)
    ensures n % 4 == 0 && size <= n ==> AlignTo(size) <= n
  {
  }

  /** The sum of the aligned sizes of the first `k` parameters. */
  function Offset(sizes: seq<nat>, k: nat): nat
    requires k <= |sizes|
  {
    if k == 0 then 0 else Offset(sizes, k - 1) + AlignTo(sizes[k - 1])
  }

  predicate Fits(sizes: seq<nat>, k: nat)
    requires k < |sizes|
  {
    Offset(sizes, k) + sizes[k] <= 800
  }

  /** The slot of parameter `k`: none from the first parameter on that does not fit. */
  ghost function Slot(sizes: seq<nat>, k: nat): Option<nat>
    requires k < |sizes|
  {
    if forall j :: 0 <= j <= k ==> Fits(sizes, j) then Some(Offset(sizes, k)) else None
  }

  lemma {:induction false} OffsetAligned(sizes: seq<nat>, k: nat)
    requires k <= |sizes|
    ensures Offset(sizes, k) % ALIGNMENT == 0
  {
    if k > 0 { OffsetAligned(sizes, k - 1); }
  }

  /** A parameter that fits leaves the next offset within the area, and one that does not puts it beyond. */
  lemma {:induction false} FitsIff(sizes: seq<nat>, k: nat)
    requires k < |sizes|
    ensures Fits(sizes, k) <==> Offset(sizes, k + 1) <= ARG_TLS_SIZE
  {
    OffsetAligned(sizes, k);
  }

  lemma {:induction false} OffsetGrows(sizes: seq<nat>, j: nat, k: nat)
    requires j < k <= |sizes|
    ensures Offset(sizes, j) + sizes[j] <= Offset(sizes, k)
    decreases k
  {
    if j + 1 < k { OffsetGrows(sizes, j, k - 1); }
  }

  /** Slots lie within the area, one after the other. */
  lemma {:induction false} SlotsApart(sizes: seq<nat>, j: nat, k: nat)
    requires j < k < |sizes| && Slot(sizes, k).Some?
    ensures Slot(sizes, j).Some? && Slot(sizes, j).value + sizes[j] <= Slot(sizes, k).value
    ensures Slot(sizes, k).value + sizes[k] <= 800
  {
    OffsetGrows(sizes, j, k);
    assert Fits(sizes, k);
  }

  /** The argument-store loop of visitCallBase: the offsets stored to. */
  method StoreArguments(sizes: seq<nat>) returns (stored: seq<nat>)
    ensures |stored| <= |sizes|
    ensures forall k :: 0 <= k < |sizes| ==> Slot(sizes, k) == if k < |stored| then Some(stored[k]) else None
  {
    stored := [];
    var offset := 0;
    var i := 0;
    while i < |sizes|
      invariant 0 <= i == |stored| <= |sizes| && offset == Offset(sizes, i)
      invariant forall k :: 0 <= k < i ==> Fits(sizes, k) && stored[k] == Offset(sizes, k)
    {
      if offset + sizes[i] > ARG_TLS_SIZE {
        assert !Fits(sizes, i);
        return;
      }
      stored := stored + [offset];
      offset := offset + AlignTo(sizes[i]);
      i := i + 1;
    }
  }

  /** getShadowForTLSArgument for parameter `a`; None is the zero shadow.  It stops at the first offset beyond the area,
      where the caller stops at the first parameter that does not fit, and comes to the same. */
  method FindArgument(sizes: seq<nat>, a: nat) returns (slot: Option<nat>)
    requires a < |sizes|
    ensures slot == Slot(sizes, a)
  {
    var offset := 0;
    var i := 0;
    while i < |sizes|
      invariant 0 <= i <= a && offset == Offset(sizes, i) <= ARG_TLS_SIZE
      invariant forall k :: 0 <= k < i ==> Fits(sizes, k)
    {
      if a != i {
        FitsIff(sizes, i);
        offset := offset + AlignTo(sizes[i]);
        if offset > ARG_TLS_SIZE {
          assert !Fits(sizes, i);
          assert Slot(sizes, a) == None;
          break;
        }
        i := i + 1;
        continue;
      }
      if offset + sizes[i] > ARG_TLS_SIZE {
        assert !Fits(sizes, i);
        assert Slot(sizes, a) == None;
        break;
      }
      return Some(offset);
    }
    return None;
  }
}
