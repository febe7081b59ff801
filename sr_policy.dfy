/** Small decisions of the SR layer that do not touch the VDI tree:
    normalizeType, the SR switches, the stale-journal test of
    SR.cleanupJournals and the roll-back rule of SR.pauseVDIs. */
module SrPolicy {
  import opened Wrappers

  // ---------------------------------------------------------------- SR types

  const TYPE_FILE: string := "file"
  const TYPE_LVHD: string := "lvhd"
  const TYPES: seq<string> := [TYPE_LVHD, TYPE_FILE]
  /** LVHDSR.SUBTYPES */
  const LVHD_SUBTYPES: seq<string> := ["lvhdoiscsi", "lvhdohba"]
  const LVM_ALIASES: seq<string> := ["lvm", "lvmoiscsi", "lvmohba"]
  const FILE_ALIASES: seq<string> := ["ext", "nfs", "ocfsoiscsi", "ocfsohba", "smb"]

  /** normalizeType: maps every driver type the collector understands onto
      one of the two SR families; any other type is an error carrying it. */
  function NormalizeType(t: string): (r: Result<string, string>)
    ensures r.Ok? <==> t in TYPES + LVHD_SUBTYPES + LVM_ALIASES + FILE_ALIASES
    ensures r.Ok? ==> r.value in TYPES
    ensures r.Ok? ==> (r.value == TYPE_LVHD <==> t in [TYPE_LVHD] + LVHD_SUBTYPES + LVM_ALIASES)
    ensures r.Err? ==> r.error == t
  {
    var t1 := if t in LVHD_SUBTYPES then TYPE_LVHD else t;
    var t2 := if t1 in LVM_ALIASES then TYPE_LVHD else t1;
    var t3 := if t2 in FILE_ALIASES then TYPE_FILE else t2;
    if t3 !in TYPES then Err(t3) else Ok(t3)
  }

  /** A normalised type normalises to itself. */
  lemma NormalizeTypeIdempotent(t: string)
    requires NormalizeType(t).Ok?
    ensures NormalizeType(NormalizeType(t).value) == NormalizeType(t)
  {
  }

  // ---------------------------------------------------------------- switches

  const DB_COALESCE: string := "coalesce"
  const DB_LEAFCLSC: string := "leaf-coalesce"
  const LEAFCLSC_DISABLED: string := "false"

  /** SR.getSwitch followed by the truth test of forbiddenBySwitch: a missing
      key and an empty value both leave the switch off. */
  function ForbiddenBySwitch(otherConfig: map<string, string>, switch: string, condition: string): (r: bool)
    ensures r ==> switch in otherConfig && otherConfig[switch] == condition
    ensures condition != "" ==> (r <==> switch in otherConfig && otherConfig[switch] == condition)
  {
    var srSwitch := if switch in otherConfig then Some(otherConfig[switch]) else None;
    srSwitch.Some? && srSwitch.value != "" && srSwitch.value == condition
  }

  /** SR.leafCoalesceForbidden */
  function LeafCoalesceForbidden(otherConfig: map<string, string>): (r: bool)
    ensures r <==> (DB_COALESCE in otherConfig && otherConfig[DB_COALESCE] == "false")
                   || (DB_LEAFCLSC in otherConfig && otherConfig[DB_LEAFCLSC] == LEAFCLSC_DISABLED)
  {
    ForbiddenBySwitch(otherConfig, DB_COALESCE, "false")
    || ForbiddenBySwitch(otherConfig, DB_LEAFCLSC, LEAFCLSC_DISABLED)
  }

  /** The switch test at the top of SR.findCoalesceable. */
  function CoalesceDisabled(otherConfig: map<string, string>): bool
  {
    DB_COALESCE in otherConfig && otherConfig[DB_COALESCE] == "false"
  }

  /** An SR on which coalescing is switched off never leaf-coalesces either;
      switching off only leaf-coalescing leaves ordinary coalescing on. */
  lemma CoalesceSwitches(otherConfig: map<string, string>)
    ensures CoalesceDisabled(otherConfig) ==> LeafCoalesceForbidden(otherConfig)
    ensures LeafCoalesceForbidden(otherConfig) && !CoalesceDisabled(otherConfig)
            ==> otherConfig[DB_LEAFCLSC] == LEAFCLSC_DISABLED
  {
  }

  // ---------------------------------------------------------------- journals

  /** The journal types SR.cleanupJournals visits, in its order:
      LVHDVDI.JRN_ZERO, VDI.JRN_RELINK, SR.JRN_CLONE. */
  datatype JournalKind = Zero | Relink | Clone

  const CLEANUP_ORDER: seq<JournalKind> := [Zero, Relink, Clone]

  datatype JournalEntry = JournalEntry(uuid: string, value: string)

  function IndexOf(s: string, c: char): (k: nat)
    ensures k <= |s|
    ensures forall i :: 0 <= i < k ==> s[i] != c
    ensures k < |s| ==> s[k] == c
  {
    if s == [] then 0 else if s[0] == c then 0 else 1 + IndexOf(s[1..], c)
  }

  /** Python's `s.split(sep)` for a one-character separator. */
  function Split(s: string, sep: char): (parts: seq<string>)
    ensures |parts| >= 1
    ensures forall i :: 0 <= i < |parts| ==> sep !in parts[i]
    decreases |s|
  {
    var k := IndexOf(s, sep);
    if k == |s| then [s] else [s[..k]] + Split(s[k + 1..], sep)
  }

  /** `sep.join(parts)` */
  function Join(parts: seq<string>, sep: char): string
  {
    if parts == [] then "" else if |parts| == 1 then parts[0]
    else parts[0] + [sep] + Join(parts[1..], sep)
  }

  /** Splitting loses nothing: joining the parts gives the value back. */
  lemma {:induction false} SplitJoin(s: string, sep: char)
    ensures Join(Split(s, sep), sep) == s
    decreases |s|
  {
    var k := IndexOf(s, sep);
    if k < |s| {
      SplitJoin(s[k + 1..], sep);
      var rest := Split(s[k + 1..], sep);
      assert Split(s, sep) == [s[..k]] + rest;
      JoinCons(s[..k], rest, sep);
      Around(s, k);
    }
  }

  /** A string is what comes before position `k`, the character there and
      what follows. */
  lemma Around(s: string, k: nat)
    requires k < |s|
    ensures s == s[..k] + [s[k]] + s[k + 1..]
  {
  }

  lemma JoinCons(a: string, rest: seq<string>, sep: char)
    requires |rest| >= 1
    ensures Join([a] + rest, sep) == a + [sep] + Join(rest, sep)
  {
    assert ([a] + rest)[1..] == rest;
  }

  /** The test applied to one journal entry: stale when its VDI is gone, and
      for a clone entry ("<base>_<clone>") when the base VDI is gone too. A
      clone value that does not split into exactly two parts raises. */
  function IsStale(kind: JournalKind, e: JournalEntry, registered: set<string>): (r: Result<bool, string>)
    ensures r == Ok(true) ==> e.uuid !in registered
    ensures r == Ok(true) && kind == Clone ==> Split(e.value, '_')[0] !in registered
    ensures kind != Clone ==> r == Ok(e.uuid !in registered)
    ensures r.Err? <==> kind == Clone && e.uuid !in registered && |Split(e.value, '_')| != 2
    ensures kind == Clone && e.uuid !in registered && |Split(e.value, '_')| == 2
            ==> r == Ok(Split(e.value, '_')[0] !in registered)
  {
    if e.uuid in registered then Ok(false)
    else if kind == Clone then
      var parts := Split(e.value, '_');
      if |parts| != 2 then Err(e.value)
      else Ok(parts[0] !in registered)
    else Ok(true)
  }

  /** How far a scan of the journals got: the entries removed, in removal
      order, and the clone value whose split raised, if one did. The
      removals made before the raise stay made. */
  datatype Cleanup<T> = Cleanup(removed: seq<T>, raised: Option<string>)

  /** The uuids of the stale entries of one journal type, in journal order;
      the first malformed clone value stops the scan. */
  function StaleEntries(kind: JournalKind, entries: seq<JournalEntry>, registered: set<string>): (r: Cleanup<string>)
    ensures forall i :: 0 <= i < |r.removed| ==> r.removed[i] !in registered
    ensures r.raised.Some? ==> kind == Clone
  {
    if entries == [] then Cleanup([], None)
    else
      match IsStale(kind, entries[0], registered)
      case Err(v) => Cleanup([], Some(v))
      case Ok(stale) =>
        var rest := StaleEntries(kind, entries[1..], registered);
        Cleanup(if stale then [entries[0].uuid] + rest.removed else rest.removed, rest.raised)
  }

  /** A scan that completes removes exactly the entries the per-entry test
      calls stale. */
  lemma {:induction false} StaleEntriesExact(kind: JournalKind, entries: seq<JournalEntry>, registered: set<string>)
    requires StaleEntries(kind, entries, registered).raised.None?
    ensures forall i :: 0 <= i < |entries| ==> IsStale(kind, entries[i], registered).Ok?
    ensures forall u :: u in StaleEntries(kind, entries, registered).removed <==>
              exists i :: 0 <= i < |entries| && entries[i].uuid == u && IsStale(kind, entries[i], registered) == Ok(true)
  {
    if entries != [] {
      StaleEntriesExact(kind, entries[1..], registered);
      var rest := StaleEntries(kind, entries[1..], registered).removed;
      forall u
        ensures u in StaleEntries(kind, entries, registered).removed <==>
                exists i :: 0 <= i < |entries| && entries[i].uuid == u && IsStale(kind, entries[i], registered) == Ok(true)
      {
        if u in rest {
          var i :| 0 <= i < |entries[1..]| && entries[1..][i].uuid == u && IsStale(kind, entries[1..][i], registered) == Ok(true);
          assert entries[i + 1] == entries[1..][i];
        }
        if exists i :: 0 <= i < |entries| && entries[i].uuid == u && IsStale(kind, entries[i], registered) == Ok(true) {
          var i :| 0 <= i < |entries| && entries[i].uuid == u && IsStale(kind, entries[i], registered) == Ok(true);
          if i > 0 {
            assert entries[1..][i - 1] == entries[i];
          }
        }
      }
      forall i | 0 <= i < |entries| ensures IsStale(kind, entries[i], registered).Ok? {
        if i > 0 {
          assert entries[1..][i - 1] == entries[i];
        }
      }
    }
  }

  /** A scan that raises does so at the first malformed entry, and has by
      then removed what a scan of the entries before it removes. */
  lemma {:induction false} StaleEntriesRaised(kind: JournalKind, entries: seq<JournalEntry>, registered: set<string>)
      returns (k: nat)
    requires StaleEntries(kind, entries, registered).raised.Some?
    ensures k < |entries| && IsStale(kind, entries[k], registered) == Err(entries[k].value)
    ensures StaleEntries(kind, entries, registered).raised == Some(entries[k].value)
    ensures StaleEntries(kind, entries[..k], registered)
            == Cleanup(StaleEntries(kind, entries, registered).removed, None)
  {
    if IsStale(kind, entries[0], registered).Err? {
      k := 0;
    } else {
      var k' := StaleEntriesRaised(kind, entries[1..], registered);
      k := k' + 1;
      assert entries[..k][1..] == entries[1..][..k'];
      assert entries[k] == entries[1..][k'];
    }
  }

  /** SR.cleanupJournals: the (type, uuid) pairs removed, in removal order,
      and the clone value whose split raised, if one did. `journals(k)` stands
      for `journaler.getAll(k)`; `registered` for the keys of `SR.vdis`. A dry
      run makes the same decisions without removing. */
  function CleanupJournals(journals: JournalKind -> seq<JournalEntry>, registered: set<string>): (r: Cleanup<(JournalKind, string)>)
    ensures forall i :: 0 <= i < |r.removed| ==> r.removed[i].1 !in registered
  {
    var z := StaleEntries(Zero, journals(Zero), registered);
    if z.raised.Some? then Cleanup(Tag(Zero, z.removed), z.raised)
    else
      var l := StaleEntries(Relink, journals(Relink), registered);
      if l.raised.Some? then Cleanup(Tag(Zero, z.removed) + Tag(Relink, l.removed), l.raised)
      else
        var c := StaleEntries(Clone, journals(Clone), registered);
        Cleanup(Tag(Zero, z.removed) + Tag(Relink, l.removed) + Tag(Clone, c.removed), c.raised)
  }

  /** Only a clone value can raise, and it does so after the zero and relink
      journals have been cleaned in full. */
  lemma CleanupJournalsOrder(journals: JournalKind -> seq<JournalEntry>, registered: set<string>)
    ensures var r := CleanupJournals(journals, registered);
            var c := StaleEntries(Clone, journals(Clone), registered);
            && StaleEntries(Zero, journals(Zero), registered).raised.None?
            && StaleEntries(Relink, journals(Relink), registered).raised.None?
            && r.raised == c.raised
            && r.removed == Tag(Zero, StaleEntries(Zero, journals(Zero), registered).removed)
                            + Tag(Relink, StaleEntries(Relink, journals(Relink), registered).removed)
                            + Tag(Clone, c.removed)
  {
  }

  /** A stale zero journal entry is removed even when a later clone entry
      is malformed and raises. */
  lemma RemovalsBeforeRaiseKept()
    ensures var journals := (k: JournalKind) =>
              if k == Zero then [JournalEntry("x", "")]
              else if k == Clone then [JournalEntry("y", "abc")] else [];
            CleanupJournals(journals, {}) == Cleanup([(Zero, "x")], Some("abc"))
  {
    var journals := (k: JournalKind) =>
      if k == Zero then [JournalEntry("x", "")]
      else if k == Clone then [JournalEntry("y", "abc")] else [];
    var x, y := JournalEntry("x", ""), JournalEntry("y", "abc");
    assert journals(Zero) == [x] && journals(Relink) == [] && journals(Clone) == [y];
    assert [x][1..] == [] && [y][1..] == [];
    assert StaleEntries(Zero, [x], {}) == Cleanup(["x"], None);
    assert Split("abc", '_') == ["abc"];
    assert IsStale(Clone, y, {}) == Err("abc");
    assert StaleEntries(Clone, [y], {}) == Cleanup([], Some("abc"));
    assert Tag(Zero, ["x"]) == [(Zero, "x")];
    assert Tag(Zero, ["x"]) + Tag(Relink, []) + Tag(Clone, []) == [(Zero, "x")];
  }

  function Tag(k: JournalKind, us: seq<string>): (r: seq<(JournalKind, string)>)
    ensures |r| == |us| && forall i :: 0 <= i < |us| ==> r[i] == (k, us[i])
  {
    if us == [] then [] else [(k, us[0])] + Tag(k, us[1..])
  }

  // ---------------------------------------------------------------- pausing

  datatype PauseOutcome = AllPaused | PauseFailed | UnpauseFailed

  /** SR.unpauseVDIs: tries every VDI; `unpauseOk(i)` is whether the i-th
      unpause succeeds. Fails if any of them failed. */
  method UnpauseVDIs<V>(vdiList: seq<V>, unpauseOk: nat -> bool) returns (ok: bool)
    ensures ok <==> forall j :: 0 <= j < |vdiList| ==> unpauseOk(j)
  {
    var failed := false;
    for j := 0 to |vdiList|
      invariant failed <==> exists i :: 0 <= i < j && !unpauseOk(i)
    {
      if !unpauseOk(j) {
        failed := true;
      }
    }
    ok := !failed;
  }

  /** SR.pauseVDIs: pauses the VDIs in order; at the first failure it stops
      and unpauses exactly those it had paused, then raises. `pauseOk(i)` is
      whether pausing the i-th VDI succeeds. */
  method PauseVDIs<V>(vdiList: seq<V>, pauseOk: nat -> bool, unpauseOk: nat -> bool)
    returns (paused: seq<V>, rolledBack: seq<V>, outcome: PauseOutcome)
    ensures outcome == AllPaused <==> forall i :: 0 <= i < |vdiList| ==> pauseOk(i)
    ensures outcome == AllPaused ==> paused == vdiList && rolledBack == []
    ensures outcome != AllPaused ==>
              && |paused| < |vdiList|
              && !pauseOk(|paused|)
              && (forall i :: 0 <= i < |paused| ==> pauseOk(i))
              && paused == vdiList[..|paused|]
              && rolledBack == paused
              && (outcome == UnpauseFailed <==> exists j :: 0 <= j < |paused| && !unpauseOk(j))
  {
    paused := [];
    rolledBack := [];
    var i: nat := 0;
    // the loop stops at the first VDI whose pause raises
    while i < |vdiList| && pauseOk(i)
      invariant i <= |vdiList|
      invariant paused == vdiList[..i]
      invariant forall j :: 0 <= j < i ==> pauseOk(j)
    {
      paused := paused + [vdiList[i]];
      i := i + 1;
    }
    var failed := i < |vdiList|;
    if failed {
      rolledBack := paused;
      var ok := UnpauseVDIs(paused, unpauseOk);
      outcome := if ok then PauseFailed else UnpauseFailed;
    } else {
      outcome := AllPaused;
    }
  }
}
