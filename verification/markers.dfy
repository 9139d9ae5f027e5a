/** The client's marker table: the vector of markers and the auto-sync flag,
    with every operation the client applies to it — creation, reset,
    deletion (tombstoning), the count query, the gated check-and-decrement,
    the receiver's per-record update and the synchronisation commit. */
module Markers {
  import opened Bytes
  import opened Protocol

  /** Every `(int)markers_.size()` in the client assumes the table length fits a signed int. */
  type MarkerList = s: seq<Marker> | |s| <= 0x7FFF_FFFF

  datatype Table = Table(markers: MarkerList, autoSync: bool)

  /** A fresh client: no markers, auto-sync on. */
  function NewTable(): (t: Table)
    ensures t.markers == [] && t.autoSync
  {
    Table([], true)
  }

  /** The position of the first marker satisfying `p`, scanning from the front. */
  function FirstMatch(ms: seq<Marker>, p: Marker -> bool): (r: Option<nat>)
    ensures r.Some? ==> r.value < |ms| && p(ms[r.value])
    ensures r.Some? ==> forall j :: 0 <= j < r.value ==> !p(ms[j])
    ensures r.None? ==> forall j :: 0 <= j < |ms| ==> !p(ms[j])
  {
    if |ms| == 0 then None
    else if p(ms[0]) then Some(0)
    else
      match FirstMatch(ms[1..], p)
      case None => None
      case Some(i) => Some(i + 1)
  }

  /* ---------------- table invariants ---------------- */

  /** Every slot holds the position it was created at, or the tombstone. */
  predicate WellIndexed(ms: seq<Marker>)
  {
    forall j :: 0 <= j < |ms| ==> ms[j].index == j || ms[j].index == Tombstone
  }

  /** No two slots, deleted or not, share a name. */
  predicate NamesDistinct(ms: seq<Marker>)
  {
    forall j, k :: 0 <= j < k < |ms| ==> ms[j].name != ms[k].name
  }

  /** The table states `CreateMarker` and `DeleteMarker` build. */
  predicate Valid(t: Table)
  {
    WellIndexed(t.markers) && NamesDistinct(t.markers)
  }

  /** No marker waits for a commit of a viewer update. */
  predicate NothingPending(ms: seq<Marker>)
  {
    forall j :: 0 <= j < |ms| ==> ms[j].pending == NoPendingUpdate
  }

  /** Every slot other than `i` is untouched. */
  predicate OnlySlotChanged(ms: seq<Marker>, ms': seq<Marker>, i: int)
  {
    |ms'| == |ms| && forall j :: 0 <= j < |ms| && j != i ==> ms'[j] == ms[j]
  }

  /* ---------------- creation ---------------- */

  /** Appends a marker at the next position and returns that position, or -1
      with the table unchanged when any slot, tombstoned or not, already has
      the name. */
  function CreateMarker(t: Table, name: Name, useCount: int32, color: uint32): (r: (int32, Table))
    requires |t.markers| < 0x7FFF_FFFF
    ensures (r.0 == -1) <==> exists j :: 0 <= j < |t.markers| && t.markers[j].name == name
    ensures r.0 == -1 ==> r.1 == t
    ensures r.0 != -1 ==> r.0 == |t.markers|
    ensures r.0 != -1 ==> r.1.autoSync == t.autoSync && |r.1.markers| == |t.markers| + 1
    ensures r.0 != -1 ==> r.1.markers[..|t.markers|] == t.markers
    ensures r.0 != -1 ==> r.1.markers[r.0] == Marker(r.0, name, useCount, NoPendingUpdate, color)
  {
    match FirstMatch(t.markers, (m: Marker) => m.name == name)
    case Some(_) => (-1, t)
    case None =>
      var i := |t.markers|;
      (i, t.(markers := t.markers + [NewMarker(i, name, useCount, color)]))
  }

  /** The three-argument overload: the default marker colour. */
  function CreateMarkerDefaultColor(t: Table, name: Name, useCount: int32): (r: (int32, Table))
    requires |t.markers| < 0x7FFF_FFFF
    ensures (r.0 == -1) <==> exists j :: 0 <= j < |t.markers| && t.markers[j].name == name
    ensures r.0 == -1 ==> r.1 == t
    ensures r.0 != -1 ==> r.0 == |t.markers| && |r.1.markers| == |t.markers| + 1
    ensures r.0 != -1 ==> r.1.markers[r.0].color == MarkerColor
  {
    CreateMarker(t, name, useCount, MarkerColor)
  }

  lemma CreatePreservesValid(t: Table, name: Name, useCount: int32, color: uint32)
    requires |t.markers| < 0x7FFF_FFFF
    requires Valid(t)
    ensures Valid(CreateMarker(t, name, useCount, color).1)
  {
    var (i, t') := CreateMarker(t, name, useCount, color);
    if i != -1 {
      var ms, ms' := t.markers, t'.markers;
      forall j | 0 <= j < |ms'|
        ensures ms'[j].index == j || ms'[j].index == Tombstone
      {
        if j < |ms| {
          assert ms'[j] == ms'[..|ms|][j];
        }
      }
      forall j, k | 0 <= j < k < |ms'|
        ensures ms'[j].name != ms'[k].name
      {
        assert ms'[j] == ms'[..|ms|][j];
        if k < |ms| {
          assert ms'[k] == ms'[..|ms|][k];
        }
      }
    }
  }

  /* ---------------- queries and resets ---------------- */

  /** The use count stored at a position, or -1 past the end. Tombstoned
      slots still report their count; the source does not check negative
      positions. */
  function MarkerUseCount(t: Table, i: int): (c: int32)
    requires 0 <= i
    ensures i >= |t.markers| ==> c == -1
    ensures i < |t.markers| ==> c == TriggerCount(t.markers[i])
  {
    if i >= |t.markers| then -1 else t.markers[i].useCount
  }

  /** A created marker reports the count it was created with. */
  lemma CreateThenUseCount(t: Table, name: Name, useCount: int32, color: uint32)
    requires |t.markers| < 0x7FFF_FFFF
    ensures var (i, t') := CreateMarker(t, name, useCount, color);
            i != -1 ==> MarkerUseCount(t', i) == useCount
  {
  }

  /** Zeroes the count at a position; negative and past-the-end positions are ignored. */
  function ResetMarkerAt(t: Table, i: int): (r: Table)
    ensures r.autoSync == t.autoSync && OnlySlotChanged(t.markers, r.markers, i)
    ensures !(0 <= i < |t.markers|) ==> r == t
    ensures 0 <= i < |t.markers| ==> r.markers[i] == SetTriggerCount(t.markers[i], 0)
  {
    if i < 0 || i >= |t.markers| then t
    else t.(markers := t.markers[i := t.markers[i].(useCount := 0)])
  }

  /** Zeroes the count of the first slot with the name, tombstoned or not;
      the empty name is ignored. */
  function ResetMarkerNamed(t: Table, name: Name): (r: Table)
    ensures r.autoSync == t.autoSync && |r.markers| == |t.markers|
    ensures |name| == 0 || (forall j :: 0 <= j < |t.markers| ==> t.markers[j].name != name) ==> r == t
    ensures |name| > 0 && (exists j :: 0 <= j < |t.markers| && t.markers[j].name == name) ==>
      exists k :: 0 <= k < |t.markers| && t.markers[k].name == name
        && (forall j :: 0 <= j < k ==> t.markers[j].name != name)
        && r == ResetMarkerAt(t, k)
  {
    if |name| == 0 then t
    else
      match FirstMatch(t.markers, (m: Marker) => m.name == name)
      case None => t
      case Some(k) => t.(markers := t.markers[k := t.markers[k].(useCount := 0)])
  }

  /** With distinct names, resetting by name is resetting the named position. */
  lemma ResetNamedIsResetAt(t: Table, k: nat)
    requires NamesDistinct(t.markers)
    requires k < |t.markers| && |t.markers[k].name| > 0
    ensures ResetMarkerNamed(t, t.markers[k].name) == ResetMarkerAt(t, k)
  {
  }

  /** After a reset the count query reports zero. */
  lemma ResetThenUseCount(t: Table, i: int)
    requires 0 <= i < |t.markers|
    ensures MarkerUseCount(ResetMarkerAt(t, i), i) == 0
  {
  }

  /* ---------------- deletion ---------------- */

  /** Tombstones the first live slot whose index is `i`; negative and
      past-the-end positions are ignored. Slots are never removed. */
  function DeleteMarkerAt(t: Table, i: int): (r: Table)
    ensures r.autoSync == t.autoSync && |r.markers| == |t.markers|
    ensures forall j :: 0 <= j < |t.markers| ==> r.markers[j].name == t.markers[j].name
    ensures !(0 <= i < |t.markers|) ==> r == t
    ensures (forall j :: 0 <= j < |t.markers| ==> t.markers[j].index != i) ==> r == t
    ensures 0 <= i < |t.markers| && (exists j :: 0 <= j < |t.markers| && t.markers[j].index == i) ==>
      exists k :: 0 <= k < |t.markers| && t.markers[k].index == i
        && (forall j :: 0 <= j < k ==> t.markers[j].index != i)
        && r.markers == t.markers[k := t.markers[k].(index := Tombstone)]
  {
    if i < 0 || i >= |t.markers| then t
    else
      match FirstMatch(t.markers, (m: Marker) => m.index == i && m.index != Tombstone)
      case None => t
      case Some(k) => t.(markers := t.markers[k := t.markers[k].(index := Tombstone)])
  }

  /** Tombstones the first live slot with the name. */
  function DeleteMarkerNamed(t: Table, name: Name): (r: Table)
    ensures r.autoSync == t.autoSync && |r.markers| == |t.markers|
    ensures forall j :: 0 <= j < |t.markers| ==> r.markers[j].name == t.markers[j].name
    ensures (forall j :: 0 <= j < |t.markers| ==> !(t.markers[j].name == name && t.markers[j].index != Tombstone))
            ==> r == t
    ensures (exists j :: 0 <= j < |t.markers| && t.markers[j].name == name && t.markers[j].index != Tombstone) ==>
      exists k :: 0 <= k < |t.markers| && t.markers[k].name == name && t.markers[k].index != Tombstone
        && (forall j :: 0 <= j < k ==> !(t.markers[j].name == name && t.markers[j].index != Tombstone))
        && r.markers == t.markers[k := t.markers[k].(index := Tombstone)]
  {
    match FirstMatch(t.markers, (m: Marker) => m.name == name && m.index != Tombstone)
    case None => t
    case Some(k) => t.(markers := t.markers[k := t.markers[k].(index := Tombstone)])
  }

  /** In a well-indexed table, deleting position `i` tombstones exactly that
      slot when it is live, and changes nothing otherwise. */
  lemma DeleteAtWellIndexed(t: Table, i: int)
    requires WellIndexed(t.markers) && 0 <= i < |t.markers|
    ensures DeleteMarkerAt(t, i).markers ==
      if t.markers[i].index == i then t.markers[i := t.markers[i].(index := Tombstone)] else t.markers
  {
  }

  lemma DeleteAtPreservesValid(t: Table, i: int)
    requires Valid(t)
    ensures Valid(DeleteMarkerAt(t, i))
  {
  }

  lemma DeleteNamedPreservesValid(t: Table, name: Name)
    requires Valid(t)
    ensures Valid(DeleteMarkerNamed(t, name))
  {
  }

  /** Deleting the same position twice is deleting it once. */
  lemma DeleteAtIdempotent(t: Table, i: int)
    requires WellIndexed(t.markers)
    ensures DeleteMarkerAt(DeleteMarkerAt(t, i), i) == DeleteMarkerAt(t, i)
  {
    if 0 <= i < |t.markers| {
      DeleteAtWellIndexed(t, i);
      DeletePreservesValidIndex(t, i);
      DeleteAtWellIndexed(DeleteMarkerAt(t, i), i);
    }
  }

  lemma DeletePreservesValidIndex(t: Table, i: int)
    requires WellIndexed(t.markers)
    ensures WellIndexed(DeleteMarkerAt(t, i).markers)
  {
  }

  /** Deleting the same name twice is deleting it once, when names are distinct. */
  lemma DeleteNamedIdempotent(t: Table, name: Name)
    requires NamesDistinct(t.markers)
    ensures DeleteMarkerNamed(DeleteMarkerNamed(t, name), name) == DeleteMarkerNamed(t, name)
  {
    var t' := DeleteMarkerNamed(t, name);
    if exists j :: 0 <= j < |t.markers| && t.markers[j].name == name && t.markers[j].index != Tombstone {
      assert forall j :: 0 <= j < |t'.markers| ==> !(t'.markers[j].name == name && t'.markers[j].index != Tombstone);
    }
  }

  /** A tombstoned slot keeps its count: the query and the gate read positions,
      not indices, so deleting a marker does not stop it reporting or gating. */
  lemma DeleteKeepsUseCount(t: Table, i: int, j: int)
    requires 0 <= j
    ensures MarkerUseCount(DeleteMarkerAt(t, i), j) == MarkerUseCount(t, j)
  {
  }

  /** A deleted name stays taken: creation rejects it. */
  lemma DeletedNameStaysTaken(t: Table, name: Name, useCount: int32, color: uint32)
    requires |t.markers| < 0x7FFF_FFFF
    requires exists j :: 0 <= j < |t.markers| && t.markers[j].name == name
    ensures CreateMarker(DeleteMarkerNamed(t, name), name, useCount, color).0 == -1
  {
    var j :| 0 <= j < |t.markers| && t.markers[j].name == name;
    assert DeleteMarkerNamed(t, name).markers[j].name == name;
  }

  /** The table half of `DeleteAllAddMarkers`. */
  function ClearMarkers(t: Table): (r: Table)
    ensures r.markers == [] && r.autoSync == t.autoSync && Valid(r)
  {
    t.(markers := [])
  }

  /* ---------------- gated use ---------------- */

  /** The gate in front of a marker-gated send: it passes, taking one use,
      when the position exists and its count is positive; otherwise it fails
      with the table unchanged. Tombstones are not checked. */
  function GatedTake(t: Table, i: int): (r: (bool, Table))
    requires 0 <= i
    ensures r.0 <==> i < |t.markers| && t.markers[i].useCount > 0
    ensures !r.0 ==> r.1 == t
    ensures r.0 ==> r.1.autoSync == t.autoSync && OnlySlotChanged(t.markers, r.1.markers, i)
    ensures r.0 ==> r.1.markers[i] == DecrementTriggerCount(t.markers[i]).0
    ensures r.0 ==> MarkerUseCount(r.1, i) == MarkerUseCount(t, i) - 1
  {
    if i >= |t.markers| || t.markers[i].useCount <= 0 then (false, t)
    else
      var m := t.markers[i];
      (true, t.(markers := t.markers[i := m.(useCount := m.useCount - 1)]))
  }

  /** `k` gated sends in a row on the same marker. */
  function GatedRun(t: Table, i: int, k: nat): (r: (nat, Table))
    requires 0 <= i
    ensures r.0 <= k && |r.1.markers| == |t.markers|
    decreases k
  {
    if k == 0 then (0, t)
    else
      var (ok, t') := GatedTake(t, i);
      var (n, t'') := GatedRun(t', i, k - 1);
      (if ok then n + 1 else n, t'')
  }

  /** A marker with `c >= 0` uses lets exactly `min(k, c)` of `k` gated sends
      through and is left with the rest; no other slot changes. */
  lemma {:induction false} GatedRunCount(t: Table, i: int, k: nat)
    requires 0 <= i < |t.markers| && t.markers[i].useCount >= 0
    ensures var c := t.markers[i].useCount;
            var (n, t') := GatedRun(t, i, k);
            n == (if k <= c then k else c)
            && t'.markers == t.markers[i := t.markers[i].(useCount := c - n)]
            && t'.autoSync == t.autoSync
    decreases k
  {
    if k > 0 {
      var (ok, t') := GatedTake(t, i);
      GatedRunCount(t', i, k - 1);
      if !ok {
        assert t.markers[i := t.markers[i].(useCount := 0)] == t.markers;
      }
    }
  }

  /** No gated send takes a count below zero. */
  lemma GatedTakeKeepsNonNegative(t: Table, i: int)
    requires 0 <= i
    requires forall j :: 0 <= j < |t.markers| ==> t.markers[j].useCount >= 0
    ensures var t' := GatedTake(t, i).1;
            forall j :: 0 <= j < |t'.markers| ==> t'.markers[j].useCount >= 0
  {
  }

  /* ---------------- synchronisation with the viewer ---------------- */

  function AutoSynchronizeMarkers(t: Table): (r: Table)
    ensures r.autoSync && r.markers == t.markers
  {
    t.(autoSync := true)
  }

  function DisableAutoSynchronizeMarkers(t: Table): (r: Table)
    ensures !r.autoSync && r.markers == t.markers
  {
    t.(autoSync := false)
  }

  /** The receiver's update for one record of a marker-sync frame: in auto
      mode the viewer's count replaces the local one and clears the pending
      slot; in manual mode it only lands in the pending slot. Positions past
      the end are ignored; the source does not check negative ones. */
  function ApplySyncRecord(t: Table, i: int, v: int32): (r: Table)
    requires 0 <= i
    ensures r.autoSync == t.autoSync && OnlySlotChanged(t.markers, r.markers, i)
    ensures i >= |t.markers| ==> r == t
    ensures i < |t.markers| && t.autoSync ==>
      MarkerUseCount(r, i) == v && r.markers[i].pending == NoPendingUpdate
    ensures i < |t.markers| && !t.autoSync ==>
      MarkerUseCount(r, i) == MarkerUseCount(t, i) && r.markers[i].pending == v
    ensures i < |t.markers| ==>
      (r.markers[i].index == t.markers[i].index && r.markers[i].name == t.markers[i].name
       && r.markers[i].color == t.markers[i].color)
  {
    if i >= |t.markers| then t
    else if t.autoSync then
      t.(markers := t.markers[i := t.markers[i].(useCount := v, pending := NoPendingUpdate)])
    else
      t.(markers := t.markers[i := t.markers[i].(pending := v)])
  }

  /** The receiver's loop over a frame's records, in order. */
  function ApplySyncRecords(t: Table, records: seq<(int32, int32)>): (r: Table)
    requires forall k :: 0 <= k < |records| ==> records[k].0 >= 0
    ensures r.autoSync == t.autoSync && |r.markers| == |t.markers|
    decreases |records|
  {
    if |records| == 0 then t
    else ApplySyncRecords(ApplySyncRecord(t, records[0].0, records[0].1), records[1..])
  }

  /** The receiver never grows or reshapes the table: names, indices and
      colours survive any sequence of records. */
  lemma {:induction false} ApplySyncRecordsKeepsShape(t: Table, records: seq<(int32, int32)>)
    requires forall k :: 0 <= k < |records| ==> records[k].0 >= 0
    ensures var r := ApplySyncRecords(t, records);
            forall j :: 0 <= j < |t.markers| ==>
              r.markers[j].index == t.markers[j].index && r.markers[j].name == t.markers[j].name
              && r.markers[j].color == t.markers[j].color
    decreases |records|
  {
    if |records| > 0 {
      ApplySyncRecordsKeepsShape(ApplySyncRecord(t, records[0].0, records[0].1), records[1..]);
    }
  }

  /** One slot of the commit as the source writes it. */
  function SyncSlotAsWritten(m: Marker): (r: Marker)
  {
    if m.pending >= 0 then m.(pending := m.useCount) else m
  }

  /** `SynchronizeMarkers` as written: every slot with a pending update gets
      its pending slot overwritten by its own count. */
  function SynchronizeMarkersAsWritten(t: Table): (r: Table)
    ensures r.autoSync == t.autoSync && |r.markers| == |t.markers|
    ensures forall j :: 0 <= j < |t.markers| ==> r.markers[j].useCount == t.markers[j].useCount
    ensures forall j :: 0 <= j < |t.markers| && t.markers[j].pending >= 0 ==>
      r.markers[j] == t.markers[j].(pending := t.markers[j].useCount)
    ensures forall j :: 0 <= j < |t.markers| && t.markers[j].pending < 0 ==> r.markers[j] == t.markers[j]
  {
    t.(markers := seq(|t.markers|, j requires 0 <= j < |t.markers| => SyncSlotAsWritten(t.markers[j])))
  }

  /** As written, a manual-mode update followed by the commit never reaches
      the count: the count stays what it was and the viewer's value is lost
      from the pending slot too. */
  lemma ManualCommitAsWrittenLosesUpdate(t: Table, i: int, v: int32)
    requires !t.autoSync && 0 <= i < |t.markers| && v >= 0
    ensures var r := SynchronizeMarkersAsWritten(ApplySyncRecord(t, i, v));
            MarkerUseCount(r, i) == MarkerUseCount(t, i)
            && r.markers[i].pending == t.markers[i].useCount
  {
  }

  /** A concrete instance: count 3, viewer reports 5, the commit leaves 3. */
  lemma ManualCommitAsWrittenExample()
    ensures var t := Table([NewMarker(0, [0x61], 3, MarkerColor)], false);
            MarkerUseCount(SynchronizeMarkersAsWritten(ApplySyncRecord(t, 0, 5)), 0) == 3
  {
  }

  /** One slot of the commit as the protocol intends it. */
  function SyncSlotIntended(m: Marker): (r: Marker)
  {
    if m.pending >= 0 then m.(useCount := m.pending, pending := NoPendingUpdate) else m
  }

  /** The commit as intended: every pending viewer count becomes the
      marker's count and the pending slot returns to the sentinel. */
  function SynchronizeMarkersIntended(t: Table): (r: Table)
    ensures r.autoSync == t.autoSync && |r.markers| == |t.markers|
    ensures forall j :: 0 <= j < |t.markers| && t.markers[j].pending >= 0 ==>
      MarkerUseCount(r, j) == t.markers[j].pending && r.markers[j].pending == NoPendingUpdate
    ensures forall j :: 0 <= j < |t.markers| && t.markers[j].pending >= 0 ==>
      r.markers[j] == t.markers[j].(useCount := t.markers[j].pending, pending := NoPendingUpdate)
    ensures forall j :: 0 <= j < |t.markers| && t.markers[j].pending < 0 ==> r.markers[j] == t.markers[j]
    ensures forall j :: 0 <= j < |t.markers| ==>
      r.markers[j].index == t.markers[j].index && r.markers[j].name == t.markers[j].name
  {
    t.(markers := seq(|t.markers|, j requires 0 <= j < |t.markers| => SyncSlotIntended(t.markers[j])))
  }

  /** Committing twice is committing once. */
  lemma SynchronizeIdempotent(t: Table)
    ensures SynchronizeMarkersIntended(SynchronizeMarkersIntended(t)) == SynchronizeMarkersIntended(t)
  {
  }

  /** With nothing pending, a manual-mode update followed by the commit leaves
      the table exactly as the auto-mode update would have. */
  lemma ManualCommitMatchesAuto(t: Table, i: int, v: int32)
    requires 0 <= i && v >= 0 && NothingPending(t.markers)
    ensures SynchronizeMarkersIntended(ApplySyncRecord(t.(autoSync := false), i, v))
            == ApplySyncRecord(t.(autoSync := true), i, v).(autoSync := false)
  {
    var a := SynchronizeMarkersIntended(ApplySyncRecord(t.(autoSync := false), i, v));
    var b := ApplySyncRecord(t.(autoSync := true), i, v).(autoSync := false);
    assert a.markers == b.markers;
  }
}
