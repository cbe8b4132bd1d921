/**
 The portable format, byte by byte: which numbers stand where, and what they say. Nothing here is part of the code; what
 the writer writes and what the reader makes of any buffer are proved to be as described here.
 */
module Format {
  import opened IntSets
  import opened Bytes
  import opened Bitsets
  import opened Containers

  /** The number of two bytes from `p` on, least significant byte first. */
  function Le16(b: seq<byte>, p: int): (x: int)
    requires 0 <= p && p + 2 <= |b|
    ensures 0 <= x < 65536
  {
    b[p] as int + 256 * (b[p + 1] as int)
  }

  /** That of four bytes. */
  function Le32(b: seq<byte>, p: int): (x: int)
    requires 0 <= p && p + 4 <= |b|
    ensures 0 <= x < 0x1_0000_0000
  {
    Le16(b, p) + 65536 * Le16(b, p + 2)
  }

  /** Binary digit `k` of the bytes from `p` on, the least significant one of a byte first. */
  predicate DigitAt(b: seq<byte>, p: int, k: int)
    requires 0 <= p && 0 <= k && p + k / 8 < |b|
  {
    (b[p + k / 8] as int) / [1, 2, 4, 8, 16, 32, 64, 128][k % 8] % 2 == 1
  }

  /** Where the descriptors start: behind the cookie and one flag for every container, or the cookie and the size. */
  function KeysAt(hasrun: bool, n: nat): nat { if hasrun then 4 + (n + 7) / 8 else 8 }

  /** Where the bodies start: there are offsets, unless there are runs and fewer than four containers. */
  function BodiesAt(hasrun: bool, n: nat): nat {
    KeysAt(hasrun, n) + 4 * n + if hasrun && n < 4 then 0 else 4 * n
  }

  /** Where each body starts when the first one starts at `first`, and where the last one ends. */
  function Starts(first: nat, cs: seq<Container>): (at: seq<nat>)
    ensures |at| == |cs| + 1 && at[0] == first
    ensures forall k :: 0 <= k < |cs| ==>
      at[k + 1] == at[k] + match cs[k] case ArrayC(vals) => 2 * |vals|
                                       case BitsetC(_, _) => 8192
                                       case RunC(runs) => 2 + 4 * |runs|
  {
    if cs == [] then [first]
    else
      var n := |cs| - 1;
      var at := Starts(first, cs[..n]);
      at + [at[n] + match cs[n] case ArrayC(vals) => 2 * |vals|
                                case BitsetC(_, _) => 8192
                                case RunC(runs) => 2 + 4 * |runs|]
  }

  /** The cookie and the number of containers. */
  predicate CookieAt(b: seq<byte>, hasrun: bool, n: nat)
    requires |b| >= if hasrun then 4 else 8
  {
    if hasrun then Le16(b, 0) == 12347 && Le16(b, 2) == n - 1 else Le32(b, 0) == 12346 && Le32(b, 4) == n
  }

  /** The values of an array; the bits of a bitset; the number of runs, then value and length of each. */
  ghost predicate ContainerAt(b: seq<byte>, p: nat, c: Container) {
    match c
    case ArrayC(vals) =>
      p + 2 * |vals| <= |b| && forall i :: 0 <= i < |vals| ==> vals[i] == Le16(b, p + 2 * i)
    case BitsetC(words, _) =>
      && p + 8192 <= |b| && |words| == 1024
      && forall x :: 0 <= x < 65536 ==> (x in BitSet(words) <==> DigitAt(b, p, x))
    case RunC(runs) =>
      && p + 2 + 4 * |runs| <= |b| && |runs| == Le16(b, p)
      && forall i :: 0 <= i < |runs| ==>
           runs[i].value == Le16(b, p + 2 + 4 * i) && runs[i].length == Le16(b, p + 4 + 4 * i)
  }

  // ---------- what is written ----------

  /** Slot `k` of an image, with its body at `p`: key, cardinality less one, run flag, offset modulo 2^32, body. */
  ghost predicate SlotAt(b: seq<byte>, hasrun: bool, keys: seq<u16>, cs: seq<Container>, k: nat, p: nat)
    requires |keys| == |cs| && k < |cs| && BodiesAt(hasrun, |cs|) <= |b|
  {
    var n, keysAt := |cs|, KeysAt(hasrun, |cs|);
    && Le16(b, keysAt + 4 * k) == keys[k] && Le16(b, keysAt + 4 * k + 2) == |Elems(cs[k])| - 1
    && (hasrun ==> (DigitAt(b, 4, k) <==> cs[k].RunC?))
    && (!hasrun || n >= 4 ==> Le32(b, keysAt + 4 * n + 4 * k) == p % 0x1_0000_0000)
    && ContainerAt(b, p, cs[k])
  }

  predicate AnyRun(cs: seq<Container>): (r: bool)
    ensures r <==> exists i :: 0 <= i < |cs| && cs[i].RunC?
  {
    exists i :: 0 <= i < |cs| && cs[i].RunC?
  }

  /** The image of a bitmap with these slots; the flags are there when one of them is a run list. */
  ghost predicate IsImage(b: seq<byte>, keys: seq<u16>, cs: seq<Container>) {
    var n, hasrun := |cs|, AnyRun(cs);
    var at := Starts(BodiesAt(hasrun, n), cs);
    && |keys| == n && |b| == at[n] >= BodiesAt(hasrun, n) && CookieAt(b, hasrun, n)
    && (forall k :: 0 <= k < n ==> SlotAt(b, hasrun, keys, cs, k, at[k]))
    && (hasrun ==> forall k :: n <= k < 8 * ((n + 7) / 8) ==> !DigitAt(b, 4, k))
  }

  // ---------- what is read ----------

  /** The cookie that announces run flags. */
  predicate RunCookie(b: seq<byte>): (r: bool)
    ensures r <==> |b| >= 4 && b[0] as int + 256 * (b[1] as int) == 12347
  {
    |b| >= 4 && Le16(b, 0) == 12347
  }

  /** Slot `k` as it is read: run flag and cardinality say which kind of container it is. */
  ghost predicate SlotRead(b: seq<byte>, hasrun: bool, keys: seq<u16>, cs: seq<Container>, k: nat, p: nat)
    requires |keys| == |cs| && k < |cs| && BodiesAt(hasrun, |cs|) <= |b|
  {
    var keysAt := KeysAt(hasrun, |cs|);
    var card := Le16(b, keysAt + 4 * k + 2) + 1;
    && Le16(b, keysAt + 4 * k) == keys[k]
    && (cs[k].RunC? <==> hasrun && DigitAt(b, 4, k))
    && (cs[k].ArrayC? ==> |cs[k].vals| == card <= 4096)
    && (cs[k].BitsetC? ==> cs[k].cardinality == card > 4096)
    && ContainerAt(b, p, cs[k])
  }

  /** The first `len` bytes of a buffer read as these slots. What the offsets say does not matter. */
  ghost predicate Reads(b: seq<byte>, keys: seq<u16>, cs: seq<Container>, len: nat) {
    var n, hasrun := |cs|, RunCookie(b);
    var at := Starts(BodiesAt(hasrun, n), cs);
    && |keys| == n <= 65536 && BodiesAt(hasrun, n) <= |b| && CookieAt(b, hasrun, n)
    && (forall k :: 0 <= k < n ==> SlotRead(b, hasrun, keys, cs, k, at[k]))
    && len == at[n]
  }
}
