/** Block moves on arrays. */
module Memory {

  /** `memmove` inside one buffer: the two blocks may overlap. */
  method Move<T>(a: array<T>, dst: nat, src: nat, count: nat)
    requires dst + count <= a.Length && src + count <= a.Length
    modifies a
    ensures a[..] == old(a[..dst]) + old(a[src..src + count]) + old(a[dst + count..])
  {
    forall k | 0 <= k < count {
      a[dst + k] := a[src + k];
    }
  }

  /** `memcpy` between two distinct buffers. */
  method Copy<T>(a: array<T>, dst: nat, b: array<T>, src: nat, count: nat)
    requires a != b && dst + count <= a.Length && src + count <= b.Length
    modifies a
    ensures a[..] == old(a[..dst]) + b[src..src + count] + old(a[dst + count..])
  {
    forall k | 0 <= k < count {
      a[dst + k] := b[src + k];
    }
  }
}
