/**
 * MakeDiskArray (p2v/disk.py): the volumes with an MBR partition identity
 * are grouped by disk signature, in the order the signatures first appear,
 * each group is sorted by partition offset and becomes one MBR disk; the
 * volumes with a GPT identity, if any, become one GPT disk after them.
 */
module DiskArrays {
  import opened Wrappers
  import opened Hex
  import opened Identities
  import opened Volumes
  import opened Partitions
  import opened Disks
  import opened DiskBuilders

  predicate HasFlavor(v: Volume, f: Flavor) {
    v.identity.Some? && v.identity.value.flavor == f
  }

  /** The list(filter(...)) calls: the volumes of one identity flavor, in argument order. */
  function WithFlavor(vs: seq<Volume>, f: Flavor): seq<Volume> {
    if vs == [] then []
    else (if HasFlavor(vs[0], f) then [vs[0]] else []) + WithFlavor(vs[1..], f)
  }

  /** The filter keeps every occurrence of a volume of the flavor and nothing else. */
  lemma {:induction false} WithFlavorCounts(vs: seq<Volume>, f: Flavor)
    ensures forall v :: multiset(WithFlavor(vs, f))[v] == if HasFlavor(v, f) then multiset(vs)[v] else 0
  {
    if vs != [] {
      WithFlavorCounts(vs[1..], f);
      assert vs == [vs[0]] + vs[1..];
    }
  }

  // ---------------------------------------------------------------- grouping

  /**
   * The signature a volume is grouped under. Only volumes with an MBR
   * partition identity are grouped; the empty key of any other volume is
   * never used.
   */
  function Signature(v: Volume): seq<Byte> {
    if HasFlavor(v, MbrPartition) then SignatureOf(v.identity.value) else []
  }

  /** One entry of the dictionary mbr_volumes_by_id: a signature and its volumes. */
  datatype Group = Group(signature: seq<Byte>, members: seq<Volume>)

  /** The dictionary update of the grouping loop: append to the signature's list, or add a new entry at the end. */
  function AddToGroups(gs: seq<Group>, v: Volume): seq<Group> {
    if gs == [] then [Group(Signature(v), [v])]
    else if gs[0].signature == Signature(v) then [Group(gs[0].signature, gs[0].members + [v])] + gs[1..]
    else [gs[0]] + AddToGroups(gs[1..], v)
  }

  /** The dictionary after the grouping loop has seen every volume of vs. */
  function GroupsOf(vs: seq<Volume>): seq<Group> {
    if vs == [] then [] else AddToGroups(GroupsOf(vs[..|vs| - 1]), vs[|vs| - 1])
  }

  /** The volumes of vs with signature s, in order. */
  function WithSignature(vs: seq<Volume>, s: seq<Byte>): seq<Volume> {
    if vs == [] then []
    else WithSignature(vs[..|vs| - 1], s) + (if Signature(vs[|vs| - 1]) == s then [vs[|vs| - 1]] else [])
  }

  predicate HasKey(gs: seq<Group>, s: seq<Byte>) {
    exists i :: 0 <= i < |gs| && gs[i].signature == s
  }

  predicate DistinctKeys(gs: seq<Group>) {
    forall i, j :: 0 <= i < j < |gs| ==> gs[i].signature != gs[j].signature
  }

  /** The values of the dictionary, one list after the other. */
  function Flatten(gs: seq<Group>): seq<Volume> {
    if gs == [] then [] else gs[0].members + Flatten(gs[1..])
  }

  /**
   * Adding a volume appends it to the entry of its signature when there is
   * one and otherwise adds a new entry at the end; nothing else changes.
   */
  lemma {:induction false} AddToGroupsMeaning(gs: seq<Group>, v: Volume)
    requires DistinctKeys(gs)
    ensures var r := AddToGroups(gs, v);
      |r| == |gs| + (if HasKey(gs, Signature(v)) then 0 else 1) &&
      (forall i :: 0 <= i < |gs| ==>
        r[i] == Group(gs[i].signature, gs[i].members + if gs[i].signature == Signature(v) then [v] else [])) &&
      (!HasKey(gs, Signature(v)) ==> r[|gs|] == Group(Signature(v), [v]))
  {
    if gs != [] && gs[0].signature != Signature(v) {
      var tail := gs[1..];
      assert DistinctKeys(tail) by {
        forall i, j | 0 <= i < j < |tail| ensures tail[i].signature != tail[j].signature {
          assert tail[i] == gs[i + 1] && tail[j] == gs[j + 1];
        }
      }
      AddToGroupsMeaning(tail, v);
      assert HasKey(gs, Signature(v)) <==> HasKey(tail, Signature(v)) by {
        if HasKey(gs, Signature(v)) {
          var i :| 0 <= i < |gs| && gs[i].signature == Signature(v);
          assert tail[i - 1] == gs[i];
        }
        if HasKey(tail, Signature(v)) {
          var i :| 0 <= i < |tail| && tail[i].signature == Signature(v);
          assert gs[i + 1] == tail[i];
        }
      }
    } else if gs != [] {
      assert HasKey(gs, Signature(v)) by {
        assert gs[0].signature == Signature(v);
      }
      forall i | 1 <= i < |gs| ensures gs[i].signature != Signature(v) {
        assert gs[0].signature != gs[i].signature;
      }
    }
  }

  /** Adding a volume adds exactly that volume to the dictionary's values. */
  lemma {:induction false} AddToGroupsFlatten(gs: seq<Group>, v: Volume)
    ensures multiset(Flatten(AddToGroups(gs, v))) == multiset(Flatten(gs)) + multiset{v}
  {
    if gs != [] && gs[0].signature != Signature(v) {
      AddToGroupsFlatten(gs[1..], v);
      assert AddToGroups(gs, v)[1..] == AddToGroups(gs[1..], v);
    } else if gs != [] {
      assert AddToGroups(gs, v)[1..] == gs[1..];
    }
  }

  /**
   * After the grouping loop the dictionary has one entry per signature that
   * occurs, no signature twice, and each entry lists exactly the volumes of
   * its signature, in argument order.
   */
  lemma {:induction false} GroupsOfMeaning(vs: seq<Volume>)
    ensures var gs := GroupsOf(vs);
      DistinctKeys(gs) &&
      (forall i :: 0 <= i < |gs| ==> gs[i].members == WithSignature(vs, gs[i].signature) && gs[i].members != []) &&
      (forall k :: 0 <= k < |vs| ==> HasKey(gs, Signature(vs[k])))
  {
    if vs != [] {
      var init, v := vs[..|vs| - 1], vs[|vs| - 1];
      assert vs == init + [v];
      GroupsOfMeaning(init);
      var gs0 := GroupsOf(init);
      AddToGroupsMeaning(gs0, v);
      var gs := AddToGroups(gs0, v);
      assert GroupsOf(vs) == gs;
      StepDistinct(gs0, gs, Signature(v));
      StepMembers(init, v, gs0, gs);
      StepCover(init, v, gs0, gs);
    }
  }

  /** Adding a volume keeps the signatures distinct. */
  lemma {:induction false} StepDistinct(gs0: seq<Group>, gs: seq<Group>, s: seq<Byte>)
    requires DistinctKeys(gs0)
    requires |gs| == |gs0| + (if HasKey(gs0, s) then 0 else 1)
    requires forall i :: 0 <= i < |gs0| ==> gs[i].signature == gs0[i].signature
    requires !HasKey(gs0, s) ==> gs[|gs0|].signature == s
    ensures DistinctKeys(gs)
  {
    forall i, j | 0 <= i < j < |gs| ensures gs[i].signature != gs[j].signature {
      if j == |gs0| {
        assert gs0[i].signature != s;
      } else {
        assert gs0[i].signature != gs0[j].signature;
      }
    }
  }

  /** Adding a volume keeps each entry equal to the volumes of its signature. */
  lemma {:induction false} StepMembers(init: seq<Volume>, v: Volume, gs0: seq<Group>, gs: seq<Group>)
    requires forall i :: 0 <= i < |gs0| ==> gs0[i].members == WithSignature(init, gs0[i].signature) && gs0[i].members != []
    requires |gs| == |gs0| + (if HasKey(gs0, Signature(v)) then 0 else 1)
    requires forall i :: 0 <= i < |gs0| ==>
      gs[i] == Group(gs0[i].signature, gs0[i].members + if gs0[i].signature == Signature(v) then [v] else [])
    requires !HasKey(gs0, Signature(v)) ==> gs[|gs0|] == Group(Signature(v), [v])
    requires !HasKey(gs0, Signature(v)) ==> forall k :: 0 <= k < |init| ==> Signature(init[k]) != Signature(v)
    ensures forall i :: 0 <= i < |gs| ==> gs[i].members == WithSignature(init + [v], gs[i].signature) && gs[i].members != []
  {
    forall i | 0 <= i < |gs| ensures gs[i].members == WithSignature(init + [v], gs[i].signature) && gs[i].members != [] {
      var s := gs[i].signature;
      WithSignatureSnoc(init, v, s);
      if i < |gs0| {
        assert gs[i] == Group(gs0[i].signature, gs0[i].members + if s == Signature(v) then [v] else []);
        assert gs0[i].members == WithSignature(init, s);
      } else {
        assert gs[i] == Group(Signature(v), [v]);
        WithSignatureAbsent(init, Signature(v));
      }
    }
  }

  /** Adding a volume leaves a key for every signature seen. */
  lemma {:induction false} StepCover(init: seq<Volume>, v: Volume, gs0: seq<Group>, gs: seq<Group>)
    requires forall k :: 0 <= k < |init| ==> HasKey(gs0, Signature(init[k]))
    requires |gs| >= |gs0|
    requires forall i :: 0 <= i < |gs0| ==> gs[i].signature == gs0[i].signature
    requires !HasKey(gs0, Signature(v)) ==> |gs| > |gs0| && gs[|gs0|].signature == Signature(v)
    ensures forall k :: 0 <= k < |init| + 1 ==> HasKey(gs, Signature((init + [v])[k]))
  {
    forall k | 0 <= k < |init| + 1 ensures HasKey(gs, Signature((init + [v])[k])) {
      var s := Signature((init + [v])[k]);
      if HasKey(gs0, s) {
        var i :| 0 <= i < |gs0| && gs0[i].signature == s;
        assert gs[i].signature == s;
      } else {
        assert k == |init|;
        assert gs[|gs0|].signature == s;
      }
    }
  }

  /** Selecting from a list with one more volume at the end. */
  lemma {:induction false} WithSignatureSnoc(vs: seq<Volume>, v: Volume, s: seq<Byte>)
    ensures WithSignature(vs + [v], s) == WithSignature(vs, s) + if Signature(v) == s then [v] else []
  {
    assert (vs + [v])[..|vs|] == vs;
  }

  /** A signature no volume of vs carries selects nothing. */
  lemma {:induction false} WithSignatureAbsent(vs: seq<Volume>, s: seq<Byte>)
    requires forall k :: 0 <= k < |vs| ==> Signature(vs[k]) != s
    ensures WithSignature(vs, s) == []
  {
    if vs != [] {
      WithSignatureAbsent(vs[..|vs| - 1], s);
    }
  }

  /** A signature occurs among the volumes before position k. */
  predicate OccursBefore(vs: seq<Volume>, s: seq<Byte>, k: int) {
    exists m :: 0 <= m < k && m < |vs| && Signature(vs[m]) == s
  }

  /**
   * The dictionary keeps its entries in the order their signatures first
   * appear: wherever the signature of a later entry occurs, the signature of
   * an earlier one has occurred before.
   */
  lemma {:induction false} GroupsOfOrder(vs: seq<Volume>)
    ensures var gs := GroupsOf(vs);
      forall i, j, k :: 0 <= i < j < |gs| && 0 <= k < |vs| && Signature(vs[k]) == gs[j].signature ==>
        OccursBefore(vs, gs[i].signature, k)
  {
    if vs != [] {
      var init, v := vs[..|vs| - 1], vs[|vs| - 1];
      assert vs == init + [v];
      GroupsOfOrder(init);
      GroupsOfMeaning(init);
      var gs0 := GroupsOf(init);
      AddToGroupsMeaning(gs0, v);
      var gs := GroupsOf(vs);
      assert gs == AddToGroups(gs0, v);
      forall i, j, k | 0 <= i < j < |gs| && 0 <= k < |vs| && Signature(vs[k]) == gs[j].signature
        ensures OccursBefore(vs, gs[i].signature, k)
      {
        OrderStep(init, v, gs0, gs, i, j, k);
      }
    }
  }

  /** The inductive step of GroupsOfOrder for one pair of entries and one position. */
  lemma {:induction false} OrderStep(init: seq<Volume>, v: Volume, gs0: seq<Group>, gs: seq<Group>, i: int, j: int, k: int)
    requires gs0 == GroupsOf(init)
    requires forall i, j, k :: 0 <= i < j < |gs0| && 0 <= k < |init| && Signature(init[k]) == gs0[j].signature ==>
        OccursBefore(init, gs0[i].signature, k)
    requires forall i :: 0 <= i < |gs0| ==> gs0[i].members == WithSignature(init, gs0[i].signature) && gs0[i].members != []
    requires forall k :: 0 <= k < |init| ==> HasKey(gs0, Signature(init[k]))
    requires |gs| == |gs0| + (if HasKey(gs0, Signature(v)) then 0 else 1)
    requires forall i :: 0 <= i < |gs0| ==> gs[i].signature == gs0[i].signature
    requires !HasKey(gs0, Signature(v)) ==> gs[|gs0|].signature == Signature(v)
    requires 0 <= i < j < |gs| && 0 <= k <= |init| && Signature((init + [v])[k]) == gs[j].signature
    ensures OccursBefore(init + [v], gs[i].signature, k)
  {
    var vs := init + [v];
    if k < |init| && j < |gs0| {
      assert init[k] == vs[k];
      var m :| 0 <= m < k && m < |init| && Signature(init[m]) == gs0[i].signature;
      assert vs[m] == init[m];
    } else if k < |init| {
      assert false;
    } else {
      WithSignatureMembers(init, gs0[i].signature);
      var w := gs0[i].members;
      assert w[0] in init;
      var m :| 0 <= m < |init| && init[m] == w[0];
      assert vs[m] == init[m];
    }
  }

  /** The dictionary's values hold every volume seen, each once. */
  lemma {:induction false} GroupsOfFlatten(vs: seq<Volume>)
    ensures multiset(Flatten(GroupsOf(vs))) == multiset(vs)
  {
    if vs != [] {
      var init := vs[..|vs| - 1];
      GroupsOfFlatten(init);
      AddToGroupsFlatten(GroupsOf(init), vs[|vs| - 1]);
      assert vs == init + [vs[|vs| - 1]];
    }
  }

  /** The grouping loop of MakeDiskArray. */
  method GroupBySignature(vs: seq<Volume>) returns (groups: seq<Group>)
    ensures groups == GroupsOf(vs)
  {
    groups := [];
    for i := 0 to |vs|
      invariant groups == GroupsOf(vs[..i])
    {
      assert vs[..i + 1][..i] == vs[..i];
      groups := AddToGroups(groups, vs[i]);
    }
    assert vs[..|vs|] == vs;
  }

  // ---------------------------------------------------------------- sorting

  /** The sort key: the partition's byte offset on the original disk. */
  function Offset(v: Volume): nat {
    if HasFlavor(v, MbrPartition) then OffsetOf(v.identity.value) else 0
  }

  predicate SortedByOffset(vs: seq<Volume>) {
    forall i, j :: 0 <= i < j < |vs| ==> Offset(vs[i]) <= Offset(vs[j])
  }

  /** Place v before the first volume whose offset is not smaller, so that equal offsets keep their order. */
  function InsertByOffset(v: Volume, sorted: seq<Volume>): seq<Volume> {
    if sorted == [] || Offset(v) <= Offset(sorted[0]) then [v] + sorted
    else [sorted[0]] + InsertByOffset(v, sorted[1..])
  }

  /** list.sort with the offset as key: a stable sort. */
  function SortByOffset(vs: seq<Volume>): seq<Volume> {
    if vs == [] then [] else InsertByOffset(vs[0], SortByOffset(vs[1..]))
  }

  /** Inserting into a sorted list keeps it sorted; the result starts with v or with the old first volume. */
  lemma {:induction false} InsertByOffsetSorted(v: Volume, sorted: seq<Volume>)
    requires SortedByOffset(sorted)
    ensures SortedByOffset(InsertByOffset(v, sorted))
    ensures InsertByOffset(v, sorted)[0] == v || (sorted != [] && InsertByOffset(v, sorted)[0] == sorted[0])
  {
    if sorted == [] || Offset(v) <= Offset(sorted[0]) {
      SortedCons(v, sorted);
    } else {
      var tail := sorted[1..];
      assert SortedByOffset(tail) by {
        forall i, j | 0 <= i < j < |tail| ensures Offset(tail[i]) <= Offset(tail[j]) {
          assert tail[i] == sorted[i + 1] && tail[j] == sorted[j + 1];
        }
      }
      InsertByOffsetSorted(v, tail);
      SortedCons(sorted[0], InsertByOffset(v, tail));
    }
  }

  /** A volume no later than the first of a sorted list can go in front of it. */
  lemma {:induction false} SortedCons(v: Volume, sorted: seq<Volume>)
    requires SortedByOffset(sorted) && (sorted != [] ==> Offset(v) <= Offset(sorted[0]))
    ensures SortedByOffset([v] + sorted)
  {
    var r := [v] + sorted;
    forall i, j | 0 <= i < j < |r| ensures Offset(r[i]) <= Offset(r[j]) {
      if i == 0 && j > 1 {
        assert Offset(sorted[0]) <= Offset(sorted[j - 1]);
      }
    }
  }

  /** Inserting adds exactly v. */
  lemma {:induction false} InsertByOffsetPermutes(v: Volume, sorted: seq<Volume>)
    ensures multiset(InsertByOffset(v, sorted)) == multiset{v} + multiset(sorted)
  {
    if sorted != [] && Offset(v) > Offset(sorted[0]) {
      InsertByOffsetPermutes(v, sorted[1..]);
      assert sorted == [sorted[0]] + sorted[1..];
    }
  }

  /** The sorted list is ordered by offset and holds the same volumes. */
  lemma {:induction false} SortByOffsetMeaning(vs: seq<Volume>)
    ensures SortedByOffset(SortByOffset(vs))
    ensures multiset(SortByOffset(vs)) == multiset(vs)
  {
    if vs != [] {
      SortByOffsetMeaning(vs[1..]);
      InsertByOffsetSorted(vs[0], SortByOffset(vs[1..]));
      InsertByOffsetPermutes(vs[0], SortByOffset(vs[1..]));
      assert vs == [vs[0]] + vs[1..];
    }
  }

  /** The volumes of vs at offset o, in order. */
  function AtOffset(vs: seq<Volume>, o: nat): seq<Volume> {
    if vs == [] then []
    else (if Offset(vs[0]) == o then [vs[0]] else []) + AtOffset(vs[1..], o)
  }

  /** Inserting puts v in front of every volume at its own offset. */
  lemma {:induction false} InsertByOffsetStable(v: Volume, sorted: seq<Volume>, o: nat)
    ensures AtOffset(InsertByOffset(v, sorted), o) == (if Offset(v) == o then [v] else []) + AtOffset(sorted, o)
  {
    if sorted != [] && Offset(v) > Offset(sorted[0]) {
      InsertByOffsetStable(v, sorted[1..], o);
      var r := InsertByOffset(v, sorted);
      assert r[0] == sorted[0] && r[1..] == InsertByOffset(v, sorted[1..]);
    } else {
      var r := InsertByOffset(v, sorted);
      assert r[0] == v && r[1..] == sorted;
    }
  }

  /** The sort is stable: volumes at the same offset keep their argument order. */
  lemma {:induction false} SortByOffsetStable(vs: seq<Volume>, o: nat)
    ensures AtOffset(SortByOffset(vs), o) == AtOffset(vs, o)
  {
    if vs != [] {
      SortByOffsetStable(vs[1..], o);
      InsertByOffsetStable(vs[0], SortByOffset(vs[1..]), o);
    }
  }

  /** A sorted group is not empty when the group is not, and holds only the group's volumes. */
  lemma {:induction false} SortedGroup(vs: seq<Volume>)
    ensures |SortByOffset(vs)| == |vs|
    ensures forall k :: 0 <= k < |SortByOffset(vs)| ==> SortByOffset(vs)[k] in vs
  {
    SortByOffsetMeaning(vs);
    assert |SortByOffset(vs)| == |multiset(SortByOffset(vs))|;
    forall k | 0 <= k < |SortByOffset(vs)| ensures SortByOffset(vs)[k] in vs {
      assert SortByOffset(vs)[k] in multiset(SortByOffset(vs));
    }
  }

  // ---------------------------------------------------------------- disks

  /** What MakeDiskArray relies on: every volume has an identity, and every volume it places has a device. */
  predicate ArrayReady(vs: seq<Volume>)
    reads vs
  {
    forall i :: 0 <= i < |vs| ==> vs[i].identity.Some? && (vs[i].identity.value.flavor != MbrDisk ==> vs[i].device.Some?)
  }

  /** Volumes taken from a ready list that carry an MBR partition identity are ready for MakeMbrDisk. */
  lemma {:induction false} ReadyMembers(vs: seq<Volume>, ws: seq<Volume>)
    requires ArrayReady(vs)
    requires forall k :: 0 <= k < |ws| ==> ws[k] in vs && HasFlavor(ws[k], MbrPartition)
    ensures AllMbrReady(ws)
  {
    forall k | 0 <= k < |ws| ensures MbrReady(ws[k]) {
      var j :| 0 <= j < |vs| && vs[j] == ws[k];
    }
  }

  /** The members of a group are volumes of the list grouped, all with the group's signature. */
  lemma {:induction false} WithSignatureMembers(vs: seq<Volume>, s: seq<Byte>)
    ensures forall k :: 0 <= k < |WithSignature(vs, s)| ==> WithSignature(vs, s)[k] in vs && Signature(WithSignature(vs, s)[k]) == s
  {
    if vs != [] {
      var init, v := vs[..|vs| - 1], vs[|vs| - 1];
      WithSignatureMembers(init, s);
      var w := WithSignature(vs, s);
      forall k | 0 <= k < |w| ensures w[k] in vs && Signature(w[k]) == s {
        if k < |WithSignature(init, s)| {
          assert w[k] == WithSignature(init, s)[k];
          var j :| 0 <= j < |init| && init[j] == w[k];
          assert vs[j] == w[k];
        } else {
          assert w[k] == v;
        }
      }
    }
  }

  /** The volumes MakeDiskArray selects with a filter come from its arguments and carry the flavor. */
  lemma {:induction false} WithFlavorMembers(vs: seq<Volume>, f: Flavor)
    ensures forall k :: 0 <= k < |WithFlavor(vs, f)| ==> WithFlavor(vs, f)[k] in vs && HasFlavor(WithFlavor(vs, f)[k], f)
  {
    WithFlavorCounts(vs, f);
    var w := WithFlavor(vs, f);
    forall k | 0 <= k < |w| ensures w[k] in vs && HasFlavor(w[k], f) {
      var x := w[k];
      assert multiset(w)[x] > 0;
      assert multiset(WithFlavor(vs, f))[x] == if HasFlavor(x, f) then multiset(vs)[x] else 0;
      assert multiset(vs)[x] > 0;
    }
  }

  /** A group is non-empty and lists volumes of vs that carry an MBR partition identity. */
  predicate GroupFrom(g: Group, vs: seq<Volume>) {
    g.members != [] &&
    forall k :: 0 <= k < |g.members| ==> g.members[k] in vs && HasFlavor(g.members[k], MbrPartition)
  }

  predicate GroupsFrom(gs: seq<Group>, vs: seq<Volume>) {
    forall i :: 0 <= i < |gs| ==> GroupFrom(gs[i], vs)
  }

  /** A group, sorted, is ready for MakeMbrDisk. */
  lemma {:induction false} GroupReady(g: Group, vs: seq<Volume>)
    requires ArrayReady(vs) && GroupFrom(g, vs)
    ensures SortByOffset(g.members) != [] && AllMbrReady(SortByOffset(g.members))
    ensures forall k :: 0 <= k < |SortByOffset(g.members)| ==> SortByOffset(g.members)[k] in vs
  {
    var m := g.members;
    var sorted := SortByOffset(m);
    SortedGroup(m);
    forall k | 0 <= k < |sorted| ensures sorted[k] in vs && HasFlavor(sorted[k], MbrPartition) {
      var j :| 0 <= j < |m| && m[j] == sorted[k];
    }
    ReadyMembers(vs, sorted);
  }

  /** The MBR disk MakeDiskArray builds for one group: MakeMbrDisk of its volumes sorted by offset. */
  function GroupDisk(g: Group, vs: seq<Volume>): Result<Disk>
    reads vs
    requires ArrayReady(vs) && GroupFrom(g, vs)
  {
    GroupReady(g, vs);
    MbrDiskOf(SortByOffset(g.members))
  }

  /** The loop of MakeDiskArray over the groups: one MBR disk per group, stopping at the first failure. */
  function MbrDisksOf(gs: seq<Group>, vs: seq<Volume>): Result<seq<Disk>>
    reads vs
    requires ArrayReady(vs) && GroupsFrom(gs, vs)
  {
    if gs == [] then Success([])
    else
      var disk :- GroupDisk(gs[0], vs);
      var rest :- MbrDisksOf(gs[1..], vs);
      Success([disk] + rest)
  }

  /** The loop succeeds exactly when every group's disk is built, and then returns those disks in order. */
  lemma {:induction false} MbrDisksMeaning(gs: seq<Group>, vs: seq<Volume>)
    requires ArrayReady(vs) && GroupsFrom(gs, vs)
    ensures MbrDisksOf(gs, vs).Success? <==> forall i :: 0 <= i < |gs| ==> GroupDisk(gs[i], vs).Success?
    ensures MbrDisksOf(gs, vs).Success? ==>
      |MbrDisksOf(gs, vs).value| == |gs| &&
      forall i :: 0 <= i < |gs| ==> MbrDisksOf(gs, vs).value[i] == GroupDisk(gs[i], vs).value
  {
    if gs != [] {
      assert forall i :: 0 <= i < |gs| - 1 ==> gs[1..][i] == gs[i + 1];
      MbrDisksMeaning(gs[1..], vs);
    }
  }

  /** The groups MakeDiskArray builds are non-empty and hold only its MBR partition volumes. */
  lemma {:induction false} ArrayGroupsFrom(vs: seq<Volume>)
    ensures GroupsFrom(GroupsOf(WithFlavor(vs, MbrPartition)), vs)
  {
    var mbrs := WithFlavor(vs, MbrPartition);
    var gs := GroupsOf(mbrs);
    WithFlavorMembers(vs, MbrPartition);
    GroupsOfMeaning(mbrs);
    forall i | 0 <= i < |gs|
      ensures forall k :: 0 <= k < |gs[i].members| ==> gs[i].members[k] in vs && HasFlavor(gs[i].members[k], MbrPartition)
    {
      WithSignatureMembers(mbrs, gs[i].signature);
      forall k | 0 <= k < |gs[i].members| ensures gs[i].members[k] in vs && HasFlavor(gs[i].members[k], MbrPartition) {
        var j :| 0 <= j < |mbrs| && mbrs[j] == gs[i].members[k];
      }
    }
  }

  /** The GPT volumes MakeDiskArray selects are ready for MakeGptDisk and come from its arguments. */
  lemma {:induction false} ArrayGptReady(vs: seq<Volume>)
    requires ArrayReady(vs)
    ensures AllGptReady(WithFlavor(vs, Flavor.Gpt))
    ensures forall i :: 0 <= i < |WithFlavor(vs, Flavor.Gpt)| ==> WithFlavor(vs, Flavor.Gpt)[i] in vs
  {
    WithFlavorMembers(vs, Flavor.Gpt);
    var w := WithFlavor(vs, Flavor.Gpt);
    forall k | 0 <= k < |w| ensures w[k].device.Some? {
      var j :| 0 <= j < |vs| && vs[j] == w[k];
    }
  }

  /** The disks MakeDiskArray returns: one MBR disk per signature, then the GPT disk when there are GPT volumes. */
  function DiskArrayOf(vs: seq<Volume>): Result<seq<Disk>>
    reads vs
    requires ArrayReady(vs)
  {
    ArrayGroupsFrom(vs);
    var mbrDisks :- MbrDisksOf(GroupsOf(WithFlavor(vs, MbrPartition)), vs);
    var gptVolumes := WithFlavor(vs, Flavor.Gpt);
    ArrayGptReady(vs);
    if gptVolumes == [] then Success(mbrDisks)
    else
      var gptDisk :- GptDiskOf(gptVolumes);
      Success(mbrDisks + [gptDisk])
  }

  /** One turn of MakeDiskArray's loop over the groups, in terms of MbrDisksOf. */
  lemma {:induction false} MbrDisksStep(gs: seq<Group>, vs: seq<Volume>, disk: Result<Disk>)
    requires ArrayReady(vs) && gs != [] && GroupsFrom(gs, vs)
    requires disk == GroupDisk(gs[0], vs)
    ensures GroupsFrom(gs[1..], vs)
    ensures disk.Failure? ==> MbrDisksOf(gs, vs) == Failure(disk.error)
    ensures disk.Success? ==> MbrDisksOf(gs, vs) == Prepend([disk.value], MbrDisksOf(gs[1..], vs))
  {
    assert forall i :: 0 <= i < |gs| - 1 ==> gs[1..][i] == gs[i + 1];
  }

  /** The loop of MakeDiskArray over the groups: sort each by offset and build its MBR disk. */
  method BuildMbrDisks(groups: seq<Group>, vs: seq<Volume>) returns (r: Result<seq<Disk>>)
    requires ArrayReady(vs) && GroupsFrom(groups, vs)
    ensures r == MbrDisksOf(groups, vs)
  {
    var disks: seq<Disk> := [];
    assert groups[0..] == groups;
    PrependNothing(MbrDisksOf(groups, vs));
    for i := 0 to |groups|
      invariant GroupsFrom(groups[i..], vs)
      invariant MbrDisksOf(groups, vs) == Prepend(disks, MbrDisksOf(groups[i..], vs))
    {
      ghost var rest := groups[i..];
      assert rest[0] == groups[i] && rest[1..] == groups[i + 1..];
      GroupReady(groups[i], vs);
      var disk := MakeMbrDisk(SortByOffset(groups[i].members));
      MbrDisksStep(rest, vs, disk);
      if disk.Failure? {
        return Failure(disk.error);
      }
      PrependOneMore(disks, disk.value, MbrDisksOf(groups[i + 1..], vs));
      disks := disks + [disk.value];
    }
    assert groups[|groups|..] == [] && disks + [] == disks;
    return Success(disks);
  }

  /** MakeDiskArray. */
  method MakeDiskArray(vs: seq<Volume>) returns (r: Result<seq<Disk>>)
    requires ArrayReady(vs)
    ensures r == DiskArrayOf(vs)
  {
    var mbrVolumes := WithFlavor(vs, MbrPartition);
    var groups := GroupBySignature(mbrVolumes);
    ArrayGroupsFrom(vs);
    var mbrDisks := BuildMbrDisks(groups, vs);
    if mbrDisks.Failure? {
      return Failure(mbrDisks.error);
    }
    var disks := mbrDisks.value;
    var gptVolumes := WithFlavor(vs, Flavor.Gpt);
    ArrayGptReady(vs);
    if gptVolumes != [] {
      var gptDisk := MakeGptDisk(gptVolumes);
      if gptDisk.Failure? {
        return Failure(gptDisk.error);
      }
      disks := disks + [gptDisk.value];
    }
    return Success(disks);
  }

  // ---------------------------------------------------------------- properties

  /** The volumes of a list of disks, disk after disk. */
  function AllVolumes(ds: seq<Disk>): seq<Volume> {
    if ds == [] then [] else DiskVolumes(ds[0]) + AllVolumes(ds[1..])
  }

  /** A group's disk is valid and holds the group's volumes sorted by offset. */
  lemma {:induction false} GroupDiskVolumes(g: Group, vs: seq<Volume>)
    requires ArrayReady(vs) && GroupFrom(g, vs) && GroupDisk(g, vs).Success?
    ensures ValidDisk(GroupDisk(g, vs).value)
    ensures DiskVolumes(GroupDisk(g, vs).value) == SortByOffset(g.members)
  {
    GroupReady(g, vs);
    MbrDiskValid(SortByOffset(g.members));
    MbrDiskVolumes(SortByOffset(g.members));
  }

  /** A group's disk carries the group's signature as its MBR disk identity. */
  lemma {:induction false} GroupDiskIdentity(g: Group, vs: seq<Volume>)
    requires ArrayReady(vs) && GroupFrom(g, vs) && GroupDisk(g, vs).Success?
    requires forall k :: 0 <= k < |g.members| ==> Signature(g.members[k]) == g.signature
    ensures GroupDisk(g, vs).value.identity == Some(Id(MbrDisk, g.signature))
  {
    var sorted := SortByOffset(g.members);
    GroupReady(g, vs);
    SortedGroup(g.members);
    MbrDiskValid(sorted);
    var j :| 0 <= j < |g.members| && g.members[j] == sorted[0];
    assert Signature(sorted[0]) == g.signature;
  }

  /** The disks of the loop over the groups hold exactly the grouped volumes. */
  lemma {:induction false} MbrDisksVolumes(gs: seq<Group>, vs: seq<Volume>)
    requires ArrayReady(vs) && GroupsFrom(gs, vs) && MbrDisksOf(gs, vs).Success?
    ensures multiset(AllVolumes(MbrDisksOf(gs, vs).value)) == multiset(Flatten(gs))
  {
    if gs != [] {
      var ds := MbrDisksOf(gs, vs).value;
      assert GroupsFrom(gs[1..], vs) by {
        assert forall i :: 0 <= i < |gs| - 1 ==> gs[1..][i] == gs[i + 1];
      }
      MbrDisksVolumes(gs[1..], vs);
      GroupDiskVolumes(gs[0], vs);
      SortByOffsetMeaning(gs[0].members);
      assert ds[0] == GroupDisk(gs[0], vs).value && ds[1..] == MbrDisksOf(gs[1..], vs).value;
    }
  }

  /**
   * MakeDiskArray succeeds exactly when the disk of every signature and, if
   * there are GPT volumes, the GPT disk are built. It then returns the MBR
   * disks in the order their signatures first appear among the arguments,
   * followed by the GPT disk.
   */
  lemma {:induction false} DiskArrayMeaning(vs: seq<Volume>)
    requires ArrayReady(vs)
    ensures var gs := GroupsOf(WithFlavor(vs, MbrPartition)); var gpts := WithFlavor(vs, Flavor.Gpt);
      GroupsFrom(gs, vs) && AllGptReady(gpts) &&
      (DiskArrayOf(vs).Success? <==>
        (forall i :: 0 <= i < |gs| ==> GroupDisk(gs[i], vs).Success?) && (gpts != [] ==> GptDiskOf(gpts).Success?)) &&
      (DiskArrayOf(vs).Success? ==>
        var ds := DiskArrayOf(vs).value;
        |ds| == |gs| + (if gpts == [] then 0 else 1) &&
        (forall i :: 0 <= i < |gs| ==> ds[i] == GroupDisk(gs[i], vs).value) &&
        (gpts != [] ==> ds[|gs|] == GptDiskOf(gpts).value))
  {
    var gs := GroupsOf(WithFlavor(vs, MbrPartition));
    ArrayGroupsFrom(vs);
    ArrayGptReady(vs);
    MbrDisksMeaning(gs, vs);
  }

  /**
   * Each MBR disk of the array is valid, carries its group's signature as
   * its identity, and holds exactly the MBR partition volumes of that
   * signature sorted by offset; no two MBR disks share a signature. The GPT
   * disk, when there is one, is valid, has no identity and holds the GPT
   * volumes in argument order.
   */
  lemma {:induction false} DiskArrayLayout(vs: seq<Volume>)
    requires ArrayReady(vs) && DiskArrayOf(vs).Success?
    ensures var mbrs := WithFlavor(vs, MbrPartition); var gs := GroupsOf(mbrs); var gpts := WithFlavor(vs, Flavor.Gpt);
      var ds := DiskArrayOf(vs).value;
      |ds| == |gs| + (if gpts == [] then 0 else 1) &&
      (forall i :: 0 <= i < |gs| ==>
        ValidDisk(ds[i]) && ds[i].identity == Some(Id(MbrDisk, gs[i].signature)) &&
        DiskVolumes(ds[i]) == SortByOffset(WithSignature(mbrs, gs[i].signature))) &&
      (forall i, j :: 0 <= i < j < |gs| ==> ds[i].identity != ds[j].identity) &&
      (gpts != [] ==> ValidDisk(ds[|gs|]) && ds[|gs|].identity == None && DiskVolumes(ds[|gs|]) == gpts)
  {
    var mbrs := WithFlavor(vs, MbrPartition);
    var gs := GroupsOf(mbrs);
    var gpts := WithFlavor(vs, Flavor.Gpt);
    DiskArrayMeaning(vs);
    GroupsOfMeaning(mbrs);
    var ds := DiskArrayOf(vs).value;
    forall i | 0 <= i < |gs|
      ensures ValidDisk(ds[i]) && ds[i].identity == Some(Id(MbrDisk, gs[i].signature))
      ensures DiskVolumes(ds[i]) == SortByOffset(WithSignature(mbrs, gs[i].signature))
    {
      WithSignatureMembers(mbrs, gs[i].signature);
      GroupDiskVolumes(gs[i], vs);
      GroupDiskIdentity(gs[i], vs);
    }
    if gpts != [] {
      GptDiskValid(gpts);
      GptDiskVolumes(gpts);
    }
  }

  /** Concatenating the volumes of one more disk. */
  lemma {:induction false} AllVolumesAppend(ds: seq<Disk>, d: Disk)
    ensures AllVolumes(ds + [d]) == AllVolumes(ds) + DiskVolumes(d)
  {
    if ds != [] {
      AllVolumesAppend(ds[1..], d);
      assert (ds + [d])[1..] == ds[1..] + [d];
    } else {
      assert AllVolumes([d]) == DiskVolumes(d) + AllVolumes([]);
    }
  }

  /**
   * Every argument with an MBR partition or GPT identity is placed on
   * exactly one disk of the array, and nothing else is.
   */
  lemma {:induction false} DiskArrayVolumes(vs: seq<Volume>)
    requires ArrayReady(vs) && DiskArrayOf(vs).Success?
    ensures multiset(AllVolumes(DiskArrayOf(vs).value)) ==
      multiset(WithFlavor(vs, MbrPartition)) + multiset(WithFlavor(vs, Flavor.Gpt))
  {
    var mbrs := WithFlavor(vs, MbrPartition);
    var gs := GroupsOf(mbrs);
    var gpts := WithFlavor(vs, Flavor.Gpt);
    ArrayGroupsFrom(vs);
    ArrayGptReady(vs);
    var m := MbrDisksOf(gs, vs);
    MbrDisksVolumes(gs, vs);
    GroupsOfFlatten(mbrs);
    if gpts == [] {
      assert DiskArrayOf(vs).value == m.value;
    } else {
      var g := GptDiskOf(gpts).value;
      assert DiskArrayOf(vs).value == m.value + [g];
      AllVolumesAppend(m.value, g);
      GptDiskVolumes(gpts);
    }
  }
}
