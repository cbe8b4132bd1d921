/** Whole histories of bitsets: every sequence of mutators, on any number of bitsets that start out empty. */
module Histories {
  import opened IntSets
  import opened Bitsets
  import opened BitsetOps
  import opened SortedArrays
  import opened Runs
  import opened Containers
  import opened Slots
  import opened Splices
  import opened BitmapEquality
  import opened EggBitsets
  import BitmapOps
  import ContainerQueries
  import Overruns

  datatype Command =
    | AddCmd(i: nat, value: u32)
    | RemoveCmd(i: nat, value: u32)
    | AddRangeCmd(i: nat, start: u32, nItems: u32)
    | RemoveRangeCmd(i: nat, start: u32, nItems: u32)
    | AddClosedCmd(i: nat, first: u32, last: u32)
    | RemoveClosedCmd(i: nat, first: u32, last: u32)
    | AddRectangleCmd(i: nat, start: u32, width: u32, height: u32, stride: u32)
    | RemoveRectangleCmd(i: nat, start: u32, width: u32, height: u32, stride: u32)
    | RemoveAllCmd(i: nat)
    | CombineCmd(i: nat, op: Op, j: nat)
    | ShiftLeftCmd(i: nat, amount: u32)
    | ShiftRightCmd(i: nat, amount: u32)
    | SpliceCmd(i: nat, position: u32, removed: u32, added: u32)

  /** What the operations do not check themselves: a rectangle is added by its columns modulo the stride. */
  predicate Guarded(cmd: Command) {
    cmd.AddRectangleCmd? ==> cmd.stride > 0
  }

  predicate Allowed(n: nat, cmd: Command) {
    cmd.i < n && (cmd.CombineCmd? ==> cmd.j < n) && Guarded(cmd)
  }

  /** What a command makes of the set `s`; `t` is the second operand of a set operation. */
  ghost function Effect(cmd: Command, s: set<int>, t: set<int>): set<int>
    requires Guarded(cmd)
  {
    match cmd
    case AddCmd(_, value) => s + {value as int}
    case RemoveCmd(_, value) => s - {value as int}
    case AddRangeCmd(_, start, n) => s + Stretch(start, n)
    case RemoveRangeCmd(_, start, n) => s - Stretch(start, n)
    case AddClosedCmd(_, first, last) => s + Range(first, last + 1)
    case RemoveClosedCmd(_, first, last) => s - Range(first, last + 1)
    case AddRectangleCmd(_, start, width, height, stride) =>
      s + (if AddGuard(start, width, height, stride) then WrappedRows(start, width, height, stride) else {})
    case RemoveRectangleCmd(_, start, width, height, stride) =>
      s - (if RemoveGuard(start, width, height, stride) then WrappedRows(start, width, height, stride) else {})
    case RemoveAllCmd(_) => {}
    case CombineCmd(_, op, _) => SetOp(op, s, t)
    case ShiftLeftCmd(_, amount) => Moved(s, -(amount as int))
    case ShiftRightCmd(_, amount) => Moved(s, amount)
    case SpliceCmd(_, position, removed, added) =>
      if position + removed < 0x1_0000_0000 && position + added < 0x1_0000_0000
      then Spliced(s, position, removed, added) else s
  }

  ghost function Step(m: seq<set<int>>, cmd: Command): (m': seq<set<int>>)
    ensures |m'| == |m|
  {
    if Allowed(|m|, cmd) then m[cmd.i := Effect(cmd, m[cmd.i], if cmd.CombineCmd? then m[cmd.j] else {})] else m
  }

  ghost function Replay(m: seq<set<int>>, cmds: seq<Command>): (m': seq<set<int>>)
    ensures |m'| == |m|
  {
    if cmds == [] then m else Step(Replay(m, cmds[..|cmds| - 1]), cmds[|cmds| - 1])
  }

  // ---------- a family of bitsets ----------

  ghost function Maps(bs: seq<EggBitset>): set<object> { set b | b in bs :: b.roaring }

  ghost function Buffers(bs: seq<EggBitset>): set<object>
    reads Maps(bs)
  {
    (set b | b in bs :: b.roaring.keys as object) + (set b | b in bs :: b.roaring.containers as object)
  }

  /** Valid bitsets that share nothing. */
  ghost predicate Family(bs: seq<EggBitset>)
    reads Maps(bs), Buffers(bs)
  {
    && (forall k :: 0 <= k < |bs| ==> bs[k].Valid())
    && (forall k, l :: 0 <= k < |bs| && 0 <= l < |bs| && k != l ==>
          bs[k] != bs[l] && BitmapOps.Distinct(bs[k].roaring, bs[l].roaring))
  }

  ghost predicate Means(bs: seq<EggBitset>, m: seq<set<int>>)
    reads Maps(bs), Buffers(bs)
  {
    |m| == |bs| && forall k :: 0 <= k < |bs| ==> bs[k].roaring.Fits() && bs[k].Values() == m[k]
  }

  /** A command is right exactly when it has room: only an intersection of two bitsets may not. */
  ghost predicate HasRoom(b: EggBitset, other: EggBitset, cmd: Command)
    requires b.roaring.Fits() && other.roaring.Fits()
    reads b.roaring, b.roaring.keys, b.roaring.containers
    reads other.roaring, other.roaring.keys, other.roaring.containers
  {
    cmd.CombineCmd? ==> b.Room(cmd.op, other)
  }

  /** One command on the bitset that it names; says whether every store stayed within its buffer. */
  method Act(b: EggBitset, other: EggBitset, cmd: Command) returns (room: bool)
    requires Guarded(cmd) && b.Valid() && other.Valid() && b.MayMeet(other)
    modifies b.roaring, b.roaring.keys, b.roaring.containers
    ensures room <==> old(HasRoom(b, other, cmd))
    ensures Kept(b.roaring) && b.roaring.Fits()
    ensures room ==> b.Valid() && b.Values() == Effect(cmd, old(b.Values()), old(other.Values()))
  {
    hide Layout, Whole, Moved, Spliced, WrappedRows, Stretch, SetOp, BitmapOps.AllFit;
    room := true;
    match cmd {
      case AddCmd(_, value) => var _ := b.Add(value);
      case RemoveCmd(_, value) => var _ := b.Remove(value);
      case AddRangeCmd(_, start, n) => b.AddRange(start, n);
      case RemoveRangeCmd(_, start, n) => b.RemoveRange(start, n);
      case AddClosedCmd(_, first, last) => b.AddRangeClosed(first, last);
      case RemoveClosedCmd(_, first, last) => b.RemoveRangeClosed(first, last);
      case AddRectangleCmd(_, start, width, height, stride) => b.AddRectangle(start, width, height, stride);
      case RemoveRectangleCmd(_, start, width, height, stride) => b.RemoveRectangle(start, width, height, stride);
      case RemoveAllCmd(_) => b.RemoveAll();
      case CombineCmd(_, op, _) => room := b.Combine(op, other);
      case ShiftLeftCmd(_, amount) => b.ShiftLeft(amount);
      case ShiftRightCmd(_, amount) => b.ShiftRight(amount);
      case SpliceCmd(_, position, removed, added) => b.Splice(position, removed, added);
    }
  }

  ghost predicate DistinctFrom(bs: seq<EggBitset>, i: nat)
    requires i < |bs|
    reads Maps(bs)
  {
    forall k :: 0 <= k < |bs| && k != i ==> bs[i] != bs[k] && BitmapOps.Distinct(bs[i].roaring, bs[k].roaring)
  }

  /** A command on bitset `i`, which no other bitset of the family notices. */
  method ActBeside(bs: seq<EggBitset>, i: nat, other: EggBitset, cmd: Command) returns (room: bool)
    requires i < |bs| && DistinctFrom(bs, i) && Guarded(cmd) && bs[i].Valid() && other.Valid() && bs[i].MayMeet(other)
    modifies bs[i].roaring, bs[i].roaring.keys, bs[i].roaring.containers
    ensures room <==> old(HasRoom(bs[i], other, cmd))
    ensures Kept(bs[i].roaring)
    ensures room ==> bs[i].Valid() && bs[i].Values() == Effect(cmd, old(bs[i].Values()), old(other.Values()))
    ensures forall k :: 0 <= k < |bs| && k != i ==>
      unchanged(bs[k].roaring) && unchanged(bs[k].roaring.keys) && unchanged(bs[k].roaring.containers)
  {
    hide Layout, Whole, Effect, Guarded, HasRoom;
    room := Act(bs[i], other, cmd);
    forall k | 0 <= k < |bs| && k != i
      ensures unchanged(bs[k].roaring) && unchanged(bs[k].roaring.keys) && unchanged(bs[k].roaring.containers)
    {
      assert old(BitmapOps.Distinct(bs[i].roaring, bs[k].roaring));
    }
  }

  /** The bitset that a command reads besides its own. */
  function Operand(bs: seq<EggBitset>, cmd: Command): EggBitset
    requires Allowed(|bs|, cmd)
  {
    if cmd.CombineCmd? then bs[cmd.j] else bs[cmd.i]
  }

  method Do(bs: seq<EggBitset>, cmd: Command, ghost m: seq<set<int>>) returns (room: bool)
    requires Family(bs) && Means(bs, m) && Allowed(|bs|, cmd)
    modifies Maps(bs), Buffers(bs)
    ensures room <==> old(HasRoom(bs[cmd.i], Operand(bs, cmd), cmd))
    ensures room ==> Family(bs) && Means(bs, Step(m, cmd))
    ensures !room ==> MayOverrun(m, cmd)
    ensures forall b :: b in bs ==> Kept(b.roaring)
  {
    hide Layout, Whole, Effect, Guarded, HasRoom, MayOverrun;
    var i := cmd.i;
    var other := Operand(bs, cmd);
    EffectOperand(cmd, m[i], m[i]);
    RoomOnSets(bs, cmd, m);
    room := ActBeside(bs, i, other, cmd);
    if !room {
      return;
    }
    forall k | 0 <= k < |bs| && k != i ensures bs[k].Valid() && bs[k].Values() == m[k] {
      assert old(bs[k].Valid());
    }
    forall k, l | 0 <= k < |bs| && 0 <= l < |bs| && k != l
      ensures bs[k] != bs[l] && BitmapOps.Distinct(bs[k].roaring, bs[l].roaring) {
      assert old(BitmapOps.Distinct(bs[k].roaring, bs[l].roaring));
    }
  }

  /** On sets: the command is an intersection of two bitsets that could leave its buffer. */
  ghost predicate MayOverrun(m: seq<set<int>>, cmd: Command) {
    && cmd.CombineCmd? && cmd.op == AndOp && cmd.i < |m| && cmd.j < |m| && cmd.i != cmd.j
    && Overruns.MayOverrun(m[cmd.i], m[cmd.j])
  }

  lemma MayOverrunIs(m: seq<set<int>>, cmd: Command)
    requires MayOverrun(m, cmd)
    ensures cmd.CombineCmd? && cmd.op == AndOp && cmd.i != cmd.j && cmd.i < |m| && cmd.j < |m|
    ensures exists k: u16 ::
      var p, q := UnderKey(m[cmd.i], k), UnderKey(m[cmd.j], k);
      || (2048 <= |p| < |q| <= 4096 && p <= q && exists v :: v in q && forall x :: x in p ==> x < v)
      || (2048 <= |q| < |p| <= 4096 && q <= p && exists v :: v in p && forall x :: x in q ==> x < v)
  {
    hide Overruns.MayOverrun, UnderKey;
    Overruns.MayOverrunMeans(m[cmd.i], m[cmd.j]);
  }

  lemma RoomOnSets(bs: seq<EggBitset>, cmd: Command, m: seq<set<int>>)
    requires Family(bs) && Means(bs, m) && Allowed(|bs|, cmd)
    ensures !HasRoom(bs[cmd.i], Operand(bs, cmd), cmd) ==> MayOverrun(m, cmd)
  {
    hide Layout, Whole, Guarded, BitmapOps.AllFit, Overruns.MayOverrun;
    if cmd.CombineCmd? && cmd.i != cmd.j {
      var x1, x2 := bs[cmd.i].roaring, bs[cmd.j].roaring;
      Overruns.OverrunNeedsHazard(x1.Keys(), x1.Slots(), x2.Keys(), x2.Slots());
    }
  }

  /** Only the set operations look at a second operand. */
  lemma EffectOperand(cmd: Command, s: set<int>, t: set<int>)
    requires Guarded(cmd)
    ensures !cmd.CombineCmd? ==> Effect(cmd, s, t) == Effect(cmd, s, {})
  {
    hide Moved, Spliced, WrappedRows, AddGuard, RemoveGuard, Stretch;
  }

  lemma AllAllowed(n: nat, cmds: seq<Command>)
    requires forall k :: 0 <= k < |cmds| ==>
      && cmds[k].i < n && (cmds[k].CombineCmd? ==> cmds[k].j < n)
      && (cmds[k].AddRectangleCmd? ==> cmds[k].stride > 0)
    ensures forall k :: 0 <= k < |cmds| ==> Allowed(n, cmds[k])
  {
  }

  /**
   Every history behaves as it would on plain sets, and keeps the invariant of every bitset: `Family` says of each one
   that its layout is in order, which `LayoutIsInOrder` spells out. Only an intersection that leaves its buffer can stop
   it: a history whose replay on sets has none that `MayOverrun` is done to the end.
   */
  method Run(bs: seq<EggBitset>, cmds: seq<Command>, ghost m: seq<set<int>>) returns (done: nat)
    requires Family(bs) && Means(bs, m)
    requires forall k :: 0 <= k < |cmds| ==>
      && cmds[k].i < |bs| && (cmds[k].CombineCmd? ==> cmds[k].j < |bs|)
      && (cmds[k].AddRectangleCmd? ==> cmds[k].stride > 0)
    modifies Maps(bs), Buffers(bs)
    ensures done <= |cmds|
    ensures done == |cmds| ==> Family(bs) && Means(bs, Replay(m, cmds))
    ensures done < |cmds| ==> MayOverrun(Replay(m, cmds[..done]), cmds[done])
    ensures done < |cmds| ==>
      var cmd, now := cmds[done], Replay(m, cmds[..done]);
      && cmd.CombineCmd? && cmd.op == AndOp && cmd.i != cmd.j && cmd.i < |now| && cmd.j < |now|
      && exists k: u16 ::
        var p, q := UnderKey(now[cmd.i], k), UnderKey(now[cmd.j], k);
        || (2048 <= |p| < |q| <= 4096 && p <= q && exists v :: v in q && forall x :: x in p ==> x < v)
        || (2048 <= |q| < |p| <= 4096 && q <= p && exists v :: v in p && forall x :: x in q ==> x < v)
  {
    AllAllowed(|bs|, cmds);
    hide Family, Means, Step, Allowed, MayOverrun, HasRoom, UnderKey;
    done := 0;
    while done < |cmds|
      invariant done <= |cmds| && Family(bs) && Means(bs, Replay(m, cmds[..done]))
      invariant forall b :: b in bs ==> Kept(b.roaring)
    {
      assert cmds[..done + 1][..done] == cmds[..done];
      var room := Do(bs, cmds[done], Replay(m, cmds[..done]));
      if !room {
        MayOverrunIs(Replay(m, cmds[..done]), cmds[done]);
        return;
      }
      done := done + 1;
    }
    assert cmds[..done] == cmds;
  }

  /** Keys strictly increase, and every container is in order by itself; none is empty. */
  ghost predicate InOrder(keys: seq<u16>, cs: seq<Container>) {
    && |keys| == |cs|
    && (forall i, j :: 0 <= i < j < |keys| ==> keys[i] < keys[j])
    && (forall i :: 0 <= i < |cs| ==> ContainerInOrder(cs[i]))
  }

  ghost predicate ContainerInOrder(c: Container) {
    match c
    case ArrayC(vals) =>
      0 < |vals| <= 4096 && forall i, j :: 0 <= i < j < |vals| ==> vals[i] < vals[j]
    case BitsetC(words, cardinality) =>
      |words| == 1024 && cardinality == |BitSet(words)| >= 2048
    case RunC(runs) =>
      && |runs| > 0
      && (forall i :: 0 <= i < |runs| ==> runs[i].End() <= 0x1_0000)
      && (forall i, j :: 0 <= i < j < |runs| ==> runs[i].End() < runs[j].value)
  }

  /** The invariant of a bitmap in full. */
  lemma LayoutIsInOrder(keys: seq<u16>, cs: seq<Container>)
    ensures Layout(keys, cs) <==> InOrder(keys, cs)
  {
    hide Good, ContainerInOrder;
    forall i | 0 <= i < |cs| ensures Good(cs[i]) <==> ContainerInOrder(cs[i]) { GoodIsInOrder(cs[i]); }
  }

  lemma GoodIsInOrder(c: Container)
    ensures Good(c) <==> ContainerInOrder(c)
  {
    hide Elements, Denote, BitSet;
    match c {
      case ArrayC(vals) => ContainerQueries.NonEmptyArray(vals);
      case BitsetC(words, _) => SomeBits(BitSet(words));
      case RunC(runs) => ContainerQueries.NonEmptyRuns(runs);
    }
  }

  lemma SomeBits(s: set<int>)
    ensures |s| >= 2048 ==> s != {}
  {
  }

  /** `n` bitsets that start out empty, after any history without such an intersection. */
  method FromEmpty(n: nat, cmds: seq<Command>) returns (bs: seq<EggBitset>, done: nat)
    requires forall k :: 0 <= k < |cmds| ==>
      && cmds[k].i < n && (cmds[k].CombineCmd? ==> cmds[k].j < n)
      && (cmds[k].AddRectangleCmd? ==> cmds[k].stride > 0)
    ensures |bs| == n && done <= |cmds|
    ensures done == |cmds| ==> Means(bs, Replay(Empties(n), cmds))
    ensures done == |cmds| ==> forall b :: b in bs ==> InOrder(b.roaring.Keys(), b.roaring.Slots())
    ensures done < |cmds| ==> MayOverrun(Replay(Empties(n), cmds[..done]), cmds[done])
    ensures done < |cmds| ==>
      var cmd, now := cmds[done], Replay(Empties(n), cmds[..done]);
      && cmd.CombineCmd? && cmd.op == AndOp && cmd.i != cmd.j && cmd.i < |now| && cmd.j < |now|
      && exists k: u16 ::
        var p, q := UnderKey(now[cmd.i], k), UnderKey(now[cmd.j], k);
        || (2048 <= |p| < |q| <= 4096 && p <= q && exists v :: v in q && forall x :: x in p ==> x < v)
        || (2048 <= |q| < |p| <= 4096 && q <= p && exists v :: v in p && forall x :: x in q ==> x < v)
  {
    hide Layout, Whole, Step, Replay, InOrder, MayOverrun, UnderKey;
    bs := Create(n);
    done := Run(bs, cmds, Empties(n));
    if done == |cmds| {
      forall b | b in bs ensures InOrder(b.roaring.Keys(), b.roaring.Slots()) {
        var k :| 0 <= k < |bs| && bs[k] == b;
        assert bs[k].Valid();
        LayoutIsInOrder(b.roaring.Keys(), b.roaring.Slots());
      }
    }
  }

  ghost function Empties(n: nat): (m: seq<set<int>>)
    ensures |m| == n
  {
    seq(n, _ => {})
  }

  method Create(n: nat) returns (bs: seq<EggBitset>)
    ensures |bs| == n && Family(bs) && Means(bs, Empties(n))
    ensures forall k :: 0 <= k < n ==>
      fresh(bs[k].roaring) && fresh(bs[k].roaring.keys) && fresh(bs[k].roaring.containers)
  {
    hide Layout, Whole;
    bs := [];
    while |bs| < n
      invariant |bs| <= n && Family(bs) && Means(bs, Empties(|bs|))
      invariant forall k :: 0 <= k < |bs| ==>
        fresh(bs[k].roaring) && fresh(bs[k].roaring.keys) && fresh(bs[k].roaring.containers)
    {
      ghost var k := |bs|;
      bs := OneMore(bs, Empties(k));
      assert Empties(k) + [{}] == Empties(k + 1);
    }
  }

  method OneMore(bs: seq<EggBitset>, ghost m: seq<set<int>>) returns (bs': seq<EggBitset>)
    requires Family(bs) && Means(bs, m)
    ensures |bs'| == |bs| + 1 && bs'[..|bs|] == bs && Family(bs') && Means(bs', m + [{}])
    ensures var b := bs'[|bs|]; fresh(b.roaring) && fresh(b.roaring.keys) && fresh(b.roaring.containers)
  {
    hide Layout, Whole;
    var b := new EggBitset();
    bs' := bs + [b];
  }
}
